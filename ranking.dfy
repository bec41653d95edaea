/**
 * Rank assignment for one (event, category) group, as done by
 * `recalcular_posiciones_categoria`: the boats that finished with a recorded
 * time are ranked 1..N in ascending order of their time text, and every boat
 * of the group that did not finish loses its rank.
 *
 * The registrations table is a sequence; a boat is addressed by its position,
 * which stands for its (unique) id.
 */
module Ranking {
  import opened Wrappers
  import opened Text
  import opened Sorting
  import opened Records

  predicate InGroup(r: Registration, ev: nat, cat: nat) {
    r.event == ev && r.category == cat
  }

  /** The filter of the ranking query: finished, with a time that is neither NULL nor empty. */
  predicate Rankable(r: Registration) {
    r.status == Finalizado && r.finalTime.Some? && r.finalTime.value != ""
  }

  /** Row `k` takes part in the ranking of the group. */
  predicate IsFinisher(rows: seq<Registration>, ev: nat, cat: nat, k: int) {
    0 <= k < |rows| && InGroup(rows[k], ev, cat) && Rankable(rows[k])
  }

  /** A row selected by the ranking query: its time text and its position in the table. */
  datatype Finisher = Finisher(time: string, index: nat)

  function FinisherIndex(f: Finisher): nat { f.index }

  /** `ORDER BY tiempo_final ASC` under SQLite's BINARY collation. */
  predicate TimeBefore(a: Finisher, b: Finisher) {
    LessEq(a.time, b.time)
  }

  /** The rows the ranking query selects, in table order. */
  function Finishers(rows: seq<Registration>, ev: nat, cat: nat): seq<Finisher>
    decreases |rows|
  {
    if rows == [] then []
    else
      var n := |rows| - 1;
      Finishers(rows[..n], ev, cat)
      + (if IsFinisher(rows, ev, cat, n) then [Finisher(rows[n].finalTime.value, n)] else [])
  }

  /**
   * The query selects exactly the finishers of the group, each once, with
   * its time, in table order.
   */
  lemma {:induction false} FinishersFacts(rows: seq<Registration>, ev: nat, cat: nat)
    ensures forall p :: 0 <= p < |Finishers(rows, ev, cat)| ==>
      var f := Finishers(rows, ev, cat)[p];
      IsFinisher(rows, ev, cat, f.index) && f.time == rows[f.index].finalTime.value
    ensures forall k :: IsFinisher(rows, ev, cat, k) ==>
      exists p :: 0 <= p < |Finishers(rows, ev, cat)| && Finishers(rows, ev, cat)[p].index == k
    ensures forall p, q :: 0 <= p < q < |Finishers(rows, ev, cat)| ==>
      Finishers(rows, ev, cat)[p].index < Finishers(rows, ev, cat)[q].index
  {
    FinishersSound(rows, ev, cat);
    FinishersComplete(rows, ev, cat);
    FinishersOrdered(rows, ev, cat);
  }

  /** Dropping the last row changes nothing about the finishers before it. */
  lemma {:induction false} FinisherInPrefix(rows: seq<Registration>, ev: nat, cat: nat, k: int)
    requires rows != [] && k < |rows| - 1
    ensures IsFinisher(rows[..|rows| - 1], ev, cat, k) <==> IsFinisher(rows, ev, cat, k)
    ensures 0 <= k ==> rows[..|rows| - 1][k] == rows[k]
  {
  }

  lemma {:induction false} FinishersSound(rows: seq<Registration>, ev: nat, cat: nat)
    ensures forall p :: 0 <= p < |Finishers(rows, ev, cat)| ==>
      var f := Finishers(rows, ev, cat)[p];
      IsFinisher(rows, ev, cat, f.index) && f.time == rows[f.index].finalTime.value
    decreases |rows|
  {
    if rows != [] {
      var n := |rows| - 1;
      var prefix := Finishers(rows[..n], ev, cat);
      var fs := Finishers(rows, ev, cat);
      FinishersSound(rows[..n], ev, cat);
      forall p | 0 <= p < |fs| ensures IsFinisher(rows, ev, cat, fs[p].index) && fs[p].time == rows[fs[p].index].finalTime.value {
        if p < |prefix| {
          assert fs[p] == prefix[p];
          FinisherInPrefix(rows, ev, cat, prefix[p].index);
        }
      }
    }
  }

  lemma {:induction false} FinishersComplete(rows: seq<Registration>, ev: nat, cat: nat)
    ensures forall k :: IsFinisher(rows, ev, cat, k) ==>
      exists p :: 0 <= p < |Finishers(rows, ev, cat)| && Finishers(rows, ev, cat)[p].index == k
    decreases |rows|
  {
    if rows != [] {
      var n := |rows| - 1;
      var prefix := Finishers(rows[..n], ev, cat);
      var fs := Finishers(rows, ev, cat);
      FinishersComplete(rows[..n], ev, cat);
      assert forall k :: 0 <= k < n ==> rows[..n][k] == rows[k];
      assert forall p :: 0 <= p < |prefix| ==> fs[p] == prefix[p];
      forall k | IsFinisher(rows, ev, cat, k) ensures exists p :: 0 <= p < |fs| && fs[p].index == k {
        if k < n {
          assert IsFinisher(rows[..n], ev, cat, k);
          var p :| 0 <= p < |prefix| && prefix[p].index == k;
          assert fs[p].index == k;
        } else {
          assert fs[|prefix|].index == k;
        }
      }
      assert forall k :: IsFinisher(rows, ev, cat, k) ==> exists p :: 0 <= p < |fs| && fs[p].index == k;
      assert fs == Finishers(rows, ev, cat);
      assert forall k :: IsFinisher(rows, ev, cat, k) ==> exists p :: 0 <= p < |Finishers(rows, ev, cat)| && Finishers(rows, ev, cat)[p].index == k;
    }
  }

  lemma {:induction false} FinishersOrdered(rows: seq<Registration>, ev: nat, cat: nat)
    ensures forall p :: 0 <= p < |Finishers(rows, ev, cat)| ==> Finishers(rows, ev, cat)[p].index < |rows|
    ensures forall p, q :: 0 <= p < q < |Finishers(rows, ev, cat)| ==>
      Finishers(rows, ev, cat)[p].index < Finishers(rows, ev, cat)[q].index
    decreases |rows|
  {
    if rows != [] {
      var n := |rows| - 1;
      var prefix := Finishers(rows[..n], ev, cat);
      var fs := Finishers(rows, ev, cat);
      FinishersOrdered(rows[..n], ev, cat);
      assert forall p :: 0 <= p < |prefix| ==> fs[p] == prefix[p];
    }
  }

  /** The query's result in ranking order. */
  function RankOrder(rows: seq<Registration>, ev: nat, cat: nat): seq<Finisher> {
    SortBy(Finishers(rows, ev, cat), TimeBefore)
  }

  /** Every index named by `order` is a position of `rows`. */
  predicate IndicesIn(order: seq<Finisher>, n: nat) {
    forall p :: 0 <= p < |order| ==> order[p].index < n
  }

  /** The table after the first `i` rank updates of the loop: `order[p]` gets rank `p + 1`. */
  function ApplyRanks(rows: seq<Registration>, order: seq<Finisher>, i: nat): (r: seq<Registration>)
    requires i <= |order| && IndicesIn(order, |rows|)
    ensures |r| == |rows|
  {
    if i == 0 then rows
    else
      var prev := ApplyRanks(rows, order, i - 1);
      var k := order[i - 1].index;
      prev[k := prev[k].(rank := Some(i))]
  }

  /** The final statement: rows of the group that are not `Finalizado` lose their rank. */
  function ClearUnfinished(rows: seq<Registration>, ev: nat, cat: nat): (r: seq<Registration>)
    ensures |r| == |rows|
  {
    seq(|rows|, k requires 0 <= k < |rows| =>
      if InGroup(rows[k], ev, cat) && rows[k].status != Finalizado then rows[k].(rank := None)
      else rows[k])
  }

  /** The ranks written when the finishers are taken in `order`. */
  function RankedBy(rows: seq<Registration>, ev: nat, cat: nat, order: seq<Finisher>): (r: seq<Registration>)
    requires IndicesIn(order, |rows|)
    ensures |r| == |rows|
  {
    ClearUnfinished(ApplyRanks(rows, order, |order|), ev, cat)
  }

  lemma {:induction false} RankOrderIndices(rows: seq<Registration>, ev: nat, cat: nat)
    ensures IndicesIn(RankOrder(rows, ev, cat), |rows|)
  {
    var fs := Finishers(rows, ev, cat);
    FinishersFacts(rows, ev, cat);
    var order := RankOrder(rows, ev, cat);
    forall p | 0 <= p < |order| ensures order[p].index < |rows| {
      assert order[p] in multiset(fs);
    }
  }

  /** The table after `recalcular_posiciones_categoria(ev, cat)`. */
  function Recomputed(rows: seq<Registration>, ev: nat, cat: nat): (r: seq<Registration>)
    ensures |r| == |rows|
  {
    RankOrderIndices(rows, ev, cat);
    RankedBy(rows, ev, cat, RankOrder(rows, ev, cat))
  }

  /** Number of boats of the group that the recomputation ranks. */
  function FinisherCount(rows: seq<Registration>, ev: nat, cat: nat): nat {
    |Finishers(rows, ev, cat)|
  }

  /** `order` is a legitimate result of the ranking query: its rows, sorted by time. */
  ghost predicate ValidOrder(rows: seq<Registration>, ev: nat, cat: nat, order: seq<Finisher>) {
    multiset(order) == multiset(Finishers(rows, ev, cat)) && SortedBy(order, TimeBefore)
  }

  lemma {:induction false} TimeBeforeTotal()
    ensures TotalPreorder(TimeBefore)
  {
    forall a: Finisher, b: Finisher ensures TimeBefore(a, b) || TimeBefore(b, a) {
      LessTotal(a.time, b.time);
    }
    forall a: Finisher, b: Finisher, c: Finisher | TimeBefore(a, b) && TimeBefore(b, c)
      ensures TimeBefore(a, c)
    {
      LessEqTransitive(a.time, b.time, c.time);
    }
  }

  lemma {:induction false} RankOrderValid(rows: seq<Registration>, ev: nat, cat: nat)
    ensures ValidOrder(rows, ev, cat, RankOrder(rows, ev, cat))
  {
    TimeBeforeTotal();
    SortBySorted(Finishers(rows, ev, cat), TimeBefore);
  }

  /** The facts about a valid order that the rank lemmas use. */
  lemma {:induction false} ValidOrderFacts(rows: seq<Registration>, ev: nat, cat: nat, order: seq<Finisher>)
    requires ValidOrder(rows, ev, cat, order)
    ensures IndicesIn(order, |rows|)
    ensures |order| == FinisherCount(rows, ev, cat)
    ensures DistinctBy(order, FinisherIndex)
    ensures forall p :: 0 <= p < |order| ==>
      IsFinisher(rows, ev, cat, order[p].index) && order[p].time == rows[order[p].index].finalTime.value
    ensures forall k :: IsFinisher(rows, ev, cat, k) ==>
      exists p :: 0 <= p < |order| && order[p].index == k
  {
    var fs := Finishers(rows, ev, cat);
    FinishersFacts(rows, ev, cat);
    assert |order| == |multiset(order)| == |multiset(fs)| == |fs|;
    OrderMembers(rows, ev, cat, order);
    OrderCovers(rows, ev, cat, order);
    OrderDistinct(rows, ev, cat, order);
  }

  lemma {:induction false} OrderMembers(rows: seq<Registration>, ev: nat, cat: nat, order: seq<Finisher>)
    requires ValidOrder(rows, ev, cat, order)
    ensures forall p :: 0 <= p < |order| ==>
      IsFinisher(rows, ev, cat, order[p].index) && order[p].time == rows[order[p].index].finalTime.value
  {
    var fs := Finishers(rows, ev, cat);
    FinishersFacts(rows, ev, cat);
    forall p | 0 <= p < |order|
      ensures IsFinisher(rows, ev, cat, order[p].index) && order[p].time == rows[order[p].index].finalTime.value
    {
      assert order[p] in multiset(fs);
    }
  }

  lemma {:induction false} OrderCovers(rows: seq<Registration>, ev: nat, cat: nat, order: seq<Finisher>)
    requires ValidOrder(rows, ev, cat, order)
    ensures forall k :: IsFinisher(rows, ev, cat, k) ==>
      exists p :: 0 <= p < |order| && order[p].index == k
  {
    var fs := Finishers(rows, ev, cat);
    FinishersFacts(rows, ev, cat);
    forall k | IsFinisher(rows, ev, cat, k) ensures exists p :: 0 <= p < |order| && order[p].index == k {
      var q :| 0 <= q < |fs| && fs[q].index == k;
      assert fs[q] in multiset(order);
    }
  }

  lemma {:induction false} OrderDistinct(rows: seq<Registration>, ev: nat, cat: nat, order: seq<Finisher>)
    requires ValidOrder(rows, ev, cat, order)
    ensures DistinctBy(order, FinisherIndex)
  {
    var fs := Finishers(rows, ev, cat);
    FinishersFacts(rows, ev, cat);
    forall p, q | 0 <= p < q < |order| ensures FinisherIndex(order[p]) != FinisherIndex(order[q]) {
      FindAtMostOnce(fs, order[p]);
      if order[p] == order[q] {
        TwiceCounted(order, p, q);
      }
      assert order[p] in multiset(fs) && order[q] in multiset(fs);
      var p' :| 0 <= p' < |fs| && fs[p'] == order[p];
      var q' :| 0 <= q' < |fs| && fs[q'] == order[q];
      assert p' != q';
      assert fs[p'].index != fs[q'].index by {
        if p' < q' {
          assert fs[p'].index < fs[q'].index;
        } else {
          assert fs[q'].index < fs[p'].index;
        }
      }
    }
  }

  lemma {:induction false} FindAtMostOnce(fs: seq<Finisher>, x: Finisher)
    requires forall i, j :: 0 <= i < j < |fs| ==> fs[i].index < fs[j].index
    ensures multiset(fs)[x] <= 1
    decreases |fs|
  {
    if fs != [] {
      assert fs == [fs[0]] + fs[1..];
      FindAtMostOnce(fs[1..], x);
      if fs[0] == x {
        assert x !in fs[1..];
      }
    }
  }

  /** What the first `i` updates of the loop have written. */
  lemma {:induction false} ApplyRanksEffect(rows: seq<Registration>, order: seq<Finisher>, i: nat)
    requires i <= |order| && IndicesIn(order, |rows|) && DistinctBy(order, FinisherIndex)
    ensures forall p :: 0 <= p < i ==>
      ApplyRanks(rows, order, i)[order[p].index] == rows[order[p].index].(rank := Some(p + 1))
    ensures forall k :: 0 <= k < |rows| && (forall p :: 0 <= p < i ==> order[p].index != k) ==>
      ApplyRanks(rows, order, i)[k] == rows[k]
  {
    if i > 0 {
      ApplyRanksEffect(rows, order, i - 1);
      forall p | 0 <= p < i - 1 ensures order[p].index != order[i - 1].index {
        assert FinisherIndex(order[p]) != FinisherIndex(order[i - 1]);
      }
    }
  }

  /** The ranks of the group when the finishers are taken in a valid `order`. */
  lemma {:induction false} RankedByFacts(rows: seq<Registration>, ev: nat, cat: nat, order: seq<Finisher>)
    requires ValidOrder(rows, ev, cat, order)
    ensures IndicesIn(order, |rows|)
    ensures forall p :: 0 <= p < |order| ==>
      RankedBy(rows, ev, cat, order)[order[p].index] == rows[order[p].index].(rank := Some(p + 1))
    ensures forall k :: 0 <= k < |rows| && !IsFinisher(rows, ev, cat, k) ==>
      RankedBy(rows, ev, cat, order)[k] ==
        (if InGroup(rows[k], ev, cat) && rows[k].status != Finalizado then rows[k].(rank := None) else rows[k])
  {
    ValidOrderFacts(rows, ev, cat, order);
    ApplyRanksEffect(rows, order, |order|);
    var a := ApplyRanks(rows, order, |order|);
    forall k | 0 <= k < |rows| && !IsFinisher(rows, ev, cat, k)
      ensures forall p :: 0 <= p < |order| ==> order[p].index != k
    {
    }
  }

  /**
   * Nothing outside the ranking changes: rows of other groups are untouched,
   * unfinished rows of the group lose their rank, a `Finalizado` row
   * without a time keeps whatever rank it had, and a finisher changes only
   * its rank, which lies in 1..N.
   */
  lemma {:induction false} RecomputedFrame(rows: seq<Registration>, ev: nat, cat: nat)
    ensures |Recomputed(rows, ev, cat)| == |rows|
    ensures forall k :: 0 <= k < |rows| && !InGroup(rows[k], ev, cat) ==>
      Recomputed(rows, ev, cat)[k] == rows[k]
    ensures forall k :: 0 <= k < |rows| && InGroup(rows[k], ev, cat) && rows[k].status != Finalizado ==>
      Recomputed(rows, ev, cat)[k] == rows[k].(rank := None)
    ensures forall k :: (0 <= k < |rows| && InGroup(rows[k], ev, cat) && rows[k].status == Finalizado
                         && !Rankable(rows[k])) ==>
      Recomputed(rows, ev, cat)[k] == rows[k]
    ensures forall k :: IsFinisher(rows, ev, cat, k) ==>
      && Recomputed(rows, ev, cat)[k].rank.Some?
      && 1 <= Recomputed(rows, ev, cat)[k].rank.value <= FinisherCount(rows, ev, cat)
      && Recomputed(rows, ev, cat)[k] == rows[k].(rank := Recomputed(rows, ev, cat)[k].rank)
  {
    var order := RankOrder(rows, ev, cat);
    RankOrderValid(rows, ev, cat);
    ValidOrderFacts(rows, ev, cat, order);
    RankedByFacts(rows, ev, cat, order);
    forall k | IsFinisher(rows, ev, cat, k)
      ensures Recomputed(rows, ev, cat)[k] == rows[k].(rank := Some(Recomputed(rows, ev, cat)[k].rank.value))
      ensures 1 <= Recomputed(rows, ev, cat)[k].rank.value <= FinisherCount(rows, ev, cat)
    {
      var p :| 0 <= p < |order| && order[p].index == k;
      assert Recomputed(rows, ev, cat)[order[p].index] == rows[k].(rank := Some(p + 1));
    }
  }

  /** The `p`-th row of the rank order is a finisher and is given rank `p + 1`. */
  lemma {:induction false} RankAt(rows: seq<Registration>, ev: nat, cat: nat, p: nat)
    requires p < FinisherCount(rows, ev, cat)
    ensures |RankOrder(rows, ev, cat)| == FinisherCount(rows, ev, cat)
    ensures IsFinisher(rows, ev, cat, RankOrder(rows, ev, cat)[p].index)
    ensures RankOrder(rows, ev, cat)[p].time == rows[RankOrder(rows, ev, cat)[p].index].finalTime.value
    ensures Recomputed(rows, ev, cat)[RankOrder(rows, ev, cat)[p].index].rank == Some(p + 1)
  {
    var order := RankOrder(rows, ev, cat);
    RankOrderValid(rows, ev, cat);
    ValidOrderFacts(rows, ev, cat, order);
    RankedByFacts(rows, ev, cat, order);
  }

  /** Every finisher has a place in the rank order. */
  lemma {:induction false} PositionOf(rows: seq<Registration>, ev: nat, cat: nat, k: nat) returns (p: nat)
    requires IsFinisher(rows, ev, cat, k)
    ensures p < FinisherCount(rows, ev, cat) == |RankOrder(rows, ev, cat)|
    ensures RankOrder(rows, ev, cat)[p].index == k
  {
    var order := RankOrder(rows, ev, cat);
    RankOrderValid(rows, ev, cat);
    ValidOrderFacts(rows, ev, cat, order);
    p :| 0 <= p < |order| && order[p].index == k;
  }

  /** Two different finishers never share a rank. */
  lemma {:induction false} RanksDiffer(rows: seq<Registration>, ev: nat, cat: nat, i: nat, j: nat)
    requires IsFinisher(rows, ev, cat, i) && IsFinisher(rows, ev, cat, j) && i != j
    ensures Recomputed(rows, ev, cat)[i].rank != Recomputed(rows, ev, cat)[j].rank
  {
    var p := PositionOf(rows, ev, cat, i);
    var q := PositionOf(rows, ev, cat, j);
    RankAt(rows, ev, cat, p);
    RankAt(rows, ev, cat, q);
  }

  /** Each rank 1..N is held by a finisher. */
  lemma {:induction false} RankHeld(rows: seq<Registration>, ev: nat, cat: nat, n: nat) returns (k: nat)
    requires 1 <= n <= FinisherCount(rows, ev, cat)
    ensures IsFinisher(rows, ev, cat, k) && Recomputed(rows, ev, cat)[k].rank == Some(n)
  {
    RankAt(rows, ev, cat, n - 1);
    k := RankOrder(rows, ev, cat)[n - 1].index;
  }

  /** Some finisher of the group holds rank `n` after the recomputation. */
  predicate RankTaken(rows: seq<Registration>, ev: nat, cat: nat, n: nat) {
    exists k: nat :: k < |rows| && IsFinisher(rows, ev, cat, k) && Recomputed(rows, ev, cat)[k].rank == Some(n)
  }

  /**
   * The ranks are a permutation of 1..N over the finishers: no two finishers
   * share a rank, and every rank 1..N is held by some finisher.
   */
  lemma {:induction false} RanksArePermutation(rows: seq<Registration>, ev: nat, cat: nat)
    ensures forall i, j :: IsFinisher(rows, ev, cat, i) && IsFinisher(rows, ev, cat, j) && i != j ==>
      Recomputed(rows, ev, cat)[i].rank != Recomputed(rows, ev, cat)[j].rank
    ensures forall n: nat :: 1 <= n <= FinisherCount(rows, ev, cat) ==> RankTaken(rows, ev, cat, n)
  {
    forall i, j | IsFinisher(rows, ev, cat, i) && IsFinisher(rows, ev, cat, j) && i != j
      ensures Recomputed(rows, ev, cat)[i].rank != Recomputed(rows, ev, cat)[j].rank
    {
      RanksDiffer(rows, ev, cat, i, j);
    }
    forall n: nat | 1 <= n <= FinisherCount(rows, ev, cat) ensures RankTaken(rows, ev, cat, n) {
      var k := RankHeld(rows, ev, cat, n);
    }
  }

  /**
   * Ranks follow the times: a strictly earlier time gets a strictly better
   * rank, and a better rank never has a later time.
   */
  lemma {:induction false} RanksFollowTimes(rows: seq<Registration>, ev: nat, cat: nat, i: nat, j: nat)
    requires IsFinisher(rows, ev, cat, i) && IsFinisher(rows, ev, cat, j)
    ensures Recomputed(rows, ev, cat)[i].rank.Some? && Recomputed(rows, ev, cat)[j].rank.Some?
    ensures Less(rows[i].finalTime.value, rows[j].finalTime.value) ==>
      Recomputed(rows, ev, cat)[i].rank.value < Recomputed(rows, ev, cat)[j].rank.value
    ensures Recomputed(rows, ev, cat)[i].rank.value < Recomputed(rows, ev, cat)[j].rank.value ==>
      LessEq(rows[i].finalTime.value, rows[j].finalTime.value)
  {
    var order := RankOrder(rows, ev, cat);
    var p := PositionOf(rows, ev, cat, i);
    var q := PositionOf(rows, ev, cat, j);
    RankAt(rows, ev, cat, p);
    RankAt(rows, ev, cat, q);
    RankOrderValid(rows, ev, cat);
    var ti, tj := rows[i].finalTime.value, rows[j].finalTime.value;
    assert order[p].time == ti && order[q].time == tj;
    if Less(ti, tj) && q <= p {
      if q < p {
        assert TimeBefore(order[q], order[p]);
        LessAsymmetric(ti, tj);
      } else {
        LessIrreflexive(ti);
      }
    }
    if p < q {
      assert TimeBefore(order[p], order[q]);
    }
  }

  /** Rows that agree on everything but their rank are ranked alike. */
  lemma {:induction false} RanksIgnoreOldRanks(a: seq<Registration>, b: seq<Registration>, ev: nat, cat: nat)
    requires |a| == |b|
    requires forall k :: 0 <= k < |a| ==> a[k].(rank := None) == b[k].(rank := None)
    ensures Finishers(a, ev, cat) == Finishers(b, ev, cat)
    decreases |a|
  {
    if a != [] {
      var n := |a| - 1;
      assert a[n].(rank := None).finalTime == a[n].finalTime;
      assert b[n].(rank := None).finalTime == b[n].finalTime;
      assert a[n].(rank := None).status == a[n].status;
      assert b[n].(rank := None).status == b[n].status;
      RanksIgnoreOldRanks(a[..n], b[..n], ev, cat);
    }
  }

  /** The recomputation changes only ranks, so it selects the same finishers again. */
  lemma {:induction false} RecomputedKeepsFinishers(rows: seq<Registration>, ev: nat, cat: nat)
    ensures Finishers(Recomputed(rows, ev, cat), ev, cat) == Finishers(rows, ev, cat)
  {
    var r1 := Recomputed(rows, ev, cat);
    RecomputedFrame(rows, ev, cat);
    forall k | 0 <= k < |rows| ensures r1[k].(rank := None) == rows[k].(rank := None) {
    }
    RanksIgnoreOldRanks(rows, r1, ev, cat);
  }

  /** One row of the table is the same after one and after two recomputations. */
  lemma {:induction false} RecomputeFixesRow(rows: seq<Registration>, ev: nat, cat: nat, k: nat)
    requires k < |rows|
    ensures Recomputed(Recomputed(rows, ev, cat), ev, cat)[k] == Recomputed(rows, ev, cat)[k]
  {
    var r1 := Recomputed(rows, ev, cat);
    var r2 := Recomputed(r1, ev, cat);
    var order := RankOrder(rows, ev, cat);
    RecomputedKeepsFinishers(rows, ev, cat);
    assert RankOrder(r1, ev, cat) == order;
    RankOrderValid(rows, ev, cat);
    RankOrderValid(r1, ev, cat);
    RecomputedFrame(rows, ev, cat);
    RankedByFacts(rows, ev, cat, order);
    RankedByFacts(r1, ev, cat, order);
    ValidOrderFacts(rows, ev, cat, order);
    if IsFinisher(rows, ev, cat, k) {
      var p :| 0 <= p < |order| && order[p].index == k;
      assert r2[order[p].index] == r1[order[p].index].(rank := Some(p + 1));
      assert r1[order[p].index] == rows[order[p].index].(rank := Some(p + 1));
    } else {
      assert !IsFinisher(r1, ev, cat, k);
    }
  }

  /** Recomputing twice is recomputing once. */
  lemma {:induction false} RecomputeIdempotent(rows: seq<Registration>, ev: nat, cat: nat)
    ensures Recomputed(Recomputed(rows, ev, cat), ev, cat) == Recomputed(rows, ev, cat)
  {
    forall k | 0 <= k < |rows|
      ensures Recomputed(Recomputed(rows, ev, cat), ev, cat)[k] == Recomputed(rows, ev, cat)[k]
    {
      RecomputeFixesRow(rows, ev, cat, k);
    }
  }

  /**
   * Ties aside, the ranks do not depend on the order in which the database
   * returns equal times: when no two finishers share a time, every valid
   * order produces the same table.
   */
  lemma {:induction false} DistinctTimesDetermineRanks(rows: seq<Registration>, ev: nat, cat: nat, order: seq<Finisher>)
    requires ValidOrder(rows, ev, cat, order)
    requires forall i, j :: IsFinisher(rows, ev, cat, i) && IsFinisher(rows, ev, cat, j) && i != j ==>
      rows[i].finalTime != rows[j].finalTime
    ensures IndicesIn(order, |rows|)
    ensures RankedBy(rows, ev, cat, order) == Recomputed(rows, ev, cat)
  {
    var canonical := RankOrder(rows, ev, cat);
    var fs := Finishers(rows, ev, cat);
    FinishersFacts(rows, ev, cat);
    RankOrderValid(rows, ev, cat);
    ValidOrderFacts(rows, ev, cat, order);
    forall x, y | x in order && y in order && TimeBefore(x, y) && TimeBefore(y, x) ensures x == y {
      assert x in multiset(fs) && y in multiset(fs);
      LessAsymmetric(x.time, y.time);
      var p :| 0 <= p < |fs| && fs[p] == x;
      var q :| 0 <= q < |fs| && fs[q] == y;
      assert rows[x.index].finalTime == rows[y.index].finalTime;
    }
    SortedUnique(order, canonical, TimeBefore);
  }
}
