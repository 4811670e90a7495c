/** The inventory ledger of inventory/src/tracker.rs. */
module Inventory {
  import opened Common

  datatype Venue = Cex | Wallet

  datatype Balance = Balance(venue: Venue, asset: string, free: real, locked: real)

  type Ledger = map<Venue, map<string, Balance>>

  /** `get_available`: a missing venue or asset counts as zero. */
  function Available(l: Ledger, v: Venue, asset: string): real {
    if v in l && asset in l[v] then l[v][asset].free else 0.0
  }

  function Locked(l: Ledger, v: Venue, asset: string): real {
    if v in l && asset in l[v] then l[v][asset].locked else 0.0
  }

  datatype Trade = Trade(venue: Venue, side: string, base: string, quote: string,
                         baseAmount: real, quoteAmount: real, fee: real, feeAsset: string)

  /** What a trade does to the free balance of one asset at one venue. */
  function Delta(t: Trade, v: Venue, asset: string): real {
    if v != t.venue then 0.0 else
    (if asset == t.base then (if t.side == "buy" then t.baseAmount else -t.baseAmount) else 0.0)
    + (if asset == t.quote then (if t.side == "buy" then -t.quoteAmount else t.quoteAmount) else 0.0)
    - (if asset == t.feeAsset then t.fee else 0.0)
  }

  function TotalDelta(trades: seq<Trade>, v: Venue, asset: string): real {
    if trades == [] then 0.0 else TotalDelta(trades[..|trades| - 1], v, asset) + Delta(trades[|trades| - 1], v, asset)
  }

  lemma {:induction false} TotalDeltaAppend(a: seq<Trade>, b: seq<Trade>, v: Venue, asset: string)
    ensures TotalDelta(a + b, v, asset) == TotalDelta(a, v, asset) + TotalDelta(b, v, asset)
    decreases b
  {
    if b == [] {
      assert a + b == a;
    } else {
      TotalDeltaAppend(a, b[..|b| - 1], v, asset);
      assert (a + b)[..|a + b| - 1] == a + b[..|b| - 1];
    }
  }

  class InventoryTracker {
    var balances: Ledger

    constructor ()
      ensures forall v, asset :: Available(balances, v, asset) == 0.0
      ensures forall v :: v in balances
    {
      balances := map[Cex := map[], Wallet := map[]];
      new;
      forall v: Venue
        ensures v in balances
      {
        match v
        case Cex =>
        case Wallet =>
      }
    }

    /** `entry(asset).or_insert(zero)` followed by `free += amount`. */
    method AddFree(v: Venue, asset: string, amount: real)
      requires v in balances
      modifies this
      ensures balances.Keys == old(balances).Keys
      ensures forall w, x :: Locked(balances, w, x) == Locked(old(balances), w, x)
      ensures forall w, x :: Available(balances, w, x) ==
                Available(old(balances), w, x) + (if w == v && x == asset then amount else 0.0)
    {
      var venueMap := balances[v];
      var entry := if asset in venueMap then venueMap[asset] else Balance(v, asset, 0.0, 0.0);
      balances := balances[v := venueMap[asset := entry.(free := entry.free + amount)]];
    }

    /** Every free balance moves by exactly the trade's delta; nothing else changes.  A venue
        the tracker does not hold is ignored. */
    method RecordTrade(t: Trade)
      modifies this
      ensures balances.Keys == old(balances).Keys
      ensures forall v, x :: Locked(balances, v, x) == Locked(old(balances), v, x)
      ensures t.venue in old(balances) ==>
                forall v, x :: Available(balances, v, x) == Available(old(balances), v, x) + Delta(t, v, x)
      ensures t.venue !in old(balances) ==> balances == old(balances)
    {
      if t.venue in balances {
        ghost var b0 := balances;
        AddFree(t.venue, t.base, if t.side == "buy" then t.baseAmount else -t.baseAmount);
        ghost var b1 := balances;
        AddFree(t.venue, t.quote, if t.side == "buy" then -t.quoteAmount else t.quoteAmount);
        ghost var b2 := balances;
        AddFree(t.venue, t.feeAsset, -t.fee);
        hide Available, Locked;
        forall v, x
          ensures Available(balances, v, x) == Available(b0, v, x) + Delta(t, v, x)
        {
          assert Available(b1, v, x) == Available(b0, v, x)
            + (if v == t.venue && x == t.base then (if t.side == "buy" then t.baseAmount else -t.baseAmount) else 0.0);
          assert Available(b2, v, x) == Available(b1, v, x)
            + (if v == t.venue && x == t.quote then (if t.side == "buy" then -t.quoteAmount else t.quoteAmount)
                else 0.0);
        }
      }
    }
  }
}
