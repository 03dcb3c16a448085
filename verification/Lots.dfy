/** The rows of `copy_position_lot_closes`, and sums over them. */
module Lots {
  import opened Money

  datatype Lot = Lot(
    id: string,
    sellKey: string,
    buyKey: string,
    closedSize: real,
    exitPrice: real,
    costBasisUsd: real,
    proceedsUsd: real,
    realizedPnlUsd: real,
    createdAt: int)

  function SizeOf(lot: Lot): real { lot.closedSize }

  function CostOf(lot: Lot): real { lot.costBasisUsd }

  function ProceedsOf(lot: Lot): real { lot.proceedsUsd }

  function PnlOf(lot: Lot): real { lot.realizedPnlUsd }

  function Sum(f: Lot -> real, lots: seq<Lot>): real {
    if lots == [] then 0.0 else f(lots[0]) + Sum(f, lots[1..])
  }

  lemma {:induction false} SumSnoc(f: Lot -> real, lots: seq<Lot>, lot: Lot)
    ensures Sum(f, lots + [lot]) == Sum(f, lots) + f(lot)
  {
    if lots == [] {
      assert [lot][1..] == [];
    } else {
      assert (lots + [lot])[1..] == lots[1..] + [lot];
      SumSnoc(f, lots[1..], lot);
    }
  }

  /** A stored result is the stored proceeds less the stored cost, up to the rounding of the three. */
  predicate BooksBalance(lot: Lot) {
    Abs(lot.realizedPnlUsd - (lot.proceedsUsd - lot.costBasisUsd)) <= 3.0 * HALF
  }

  predicate InRange(members: seq<nat>, n: nat) {
    forall k :: 0 <= k < |members| ==> members[k] < n
  }

  /** The rows at some indices. */
  function Pick(lots: seq<Lot>, members: seq<nat>): (r: seq<Lot>)
    requires InRange(members, |lots|)
    ensures |r| == |members| && forall k :: 0 <= k < |members| ==> r[k] == lots[members[k]]
  {
    seq(|members|, k requires 0 <= k < |members| => lots[members[k]])
  }
}
