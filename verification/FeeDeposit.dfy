/** XCM fees deposited to an account, or burned where the deposit fails. */
module FeeDeposit {
  import opened Common
  import opened Locations
  import opened Reserves

  function AccountLocation(receiver: H160): Location { Location(0, [AccountKey20(None, receiver)]) }

  /** How much of the asset `id` a list of fungible assets holds. */
  function Total(assets: seq<Asset>, id: Location): nat {
    if assets == [] then 0
    else
      var a := assets[|assets| - 1];
      Total(assets[..|assets| - 1], id) + if a.id == id && a.fun.Fungible? then a.fun.amount else 0
  }

  predicate Accepted(asset: Asset, willing: bool) { willing && asset.fun.Fungible? }

  /** The assets that are deposited, and those that are burned, in order. */
  function Deposited(fee: seq<Asset>, willing: seq<bool>): seq<Asset>
    requires |willing| == |fee|
  {
    if fee == [] then []
    else
      var n := |fee| - 1;
      var earlier := Deposited(fee[..n], willing[..n]);
      if Accepted(fee[n], willing[n]) then earlier + [fee[n]] else earlier
  }

  function Burned(fee: seq<Asset>, willing: seq<bool>): seq<Asset>
    requires |willing| == |fee|
  {
    if fee == [] then []
    else
      var n := |fee| - 1;
      var earlier := Burned(fee[..n], willing[..n]);
      if Accepted(fee[n], willing[n]) then earlier else earlier + [fee[n]]
  }

  lemma OneMoreAsset(fee: seq<Asset>, willing: seq<bool>, i: nat)
    requires |willing| == |fee| && i < |fee|
    ensures Burned(fee[..i + 1], willing[..i + 1])
            == if Accepted(fee[i], willing[i]) then Burned(fee[..i], willing[..i])
               else Burned(fee[..i], willing[..i]) + [fee[i]]
    ensures forall id :: Total(Deposited(fee[..i + 1], willing[..i + 1]), id)
              == Total(Deposited(fee[..i], willing[..i]), id)
                 + if Accepted(fee[i], willing[i]) && fee[i].id == id then fee[i].fun.amount else 0
  {
    assert fee[..i + 1][..i] == fee[..i] && willing[..i + 1][..i] == willing[..i];
    var earlier := Deposited(fee[..i], willing[..i]);
    assert (earlier + [fee[i]])[..|earlier|] == earlier;
  }

  /** The balances of every asset at every location, and what could not be deposited. */
  class Transactor {
    var balances: map<(Location, Location), nat>
    var burned: seq<Asset>

    constructor ()
      ensures balances == map[] && burned == []
    {
      balances, burned := map[], [];
    }

    function Balance(who: Location, asset: Location): nat
      reads this
    {
      if (who, asset) in balances then balances[(who, asset)] else 0
    }

    /** Deposits an asset. Only fungible assets are handled; `willing` is whatever else can make the
        deposit fail. A failed deposit changes no balance. */
    method DepositAsset(asset: Asset, dest: Location, willing: bool) returns (ok: bool)
      modifies this`balances
      ensures ok <==> willing && asset.fun.Fungible?
      ensures forall who, id :: Balance(who, id) ==
                old(Balance(who, id)) + if ok && who == dest && id == asset.id then asset.fun.amount else 0
    {
      ok := willing && asset.fun.Fungible?;
      if ok {
        balances := balances[(dest, asset.id) := Balance(dest, asset.id) + asset.fun.amount];
      }
    }

    /** Visits every asset of the fee. `willing[i]` says whether the deposit of the asset at `i` can
        succeed. */
    method DepositOrBurnFee(fee: seq<Asset>, willing: seq<bool>, receiver: H160)
      requires |willing| == |fee|
      modifies this
      ensures burned == old(burned) + Burned(fee, willing)
      ensures forall who, id :: Balance(who, id) ==
                old(Balance(who, id)) + if who == Location(0, [AccountKey20(None, receiver)]) then Total(Deposited(fee, willing), id) else 0
    {
      var dest := AccountLocation(receiver);
      assert forall id :: Total(Deposited(fee[..0], willing[..0]), id) == 0;
      for i := 0 to |fee|
        invariant burned == old(burned) + Burned(fee[..i], willing[..i])
        invariant forall who, id :: Balance(who, id) ==
                    old(Balance(who, id)) + if who == dest then Total(Deposited(fee[..i], willing[..i]), id) else 0
      {
        OneMoreAsset(fee, willing, i);
        var ok := DepositAsset(fee[i], dest, willing[i]);
        if !ok {
          burned := burned + [fee[i]];
        }
      }
      assert fee[..|fee|] == fee && willing[..|willing|] == willing;
    }

    /** Nothing of the fee is handed back. */
    method HandleFee(fee: seq<Asset>, willing: seq<bool>, receiver: H160) returns (rest: seq<Asset>)
      requires |willing| == |fee|
      modifies this
      ensures rest == []
      ensures burned == old(burned) + Burned(fee, willing)
      ensures forall who, id :: Balance(who, id) ==
                old(Balance(who, id)) + if who == Location(0, [AccountKey20(None, receiver)]) then Total(Deposited(fee, willing), id) else 0
    {
      DepositOrBurnFee(fee, willing, receiver);
      rest := [];
    }
  }

  /** For every pattern of failures, what is deposited and what is burned are together the fee, asset
      for asset. */
  lemma {:induction false} FeeIsConserved(fee: seq<Asset>, willing: seq<bool>)
    requires |willing| == |fee|
    ensures multiset(Deposited(fee, willing)) + multiset(Burned(fee, willing)) == multiset(fee)
  {
    if fee == [] {
    } else {
      var n := |fee| - 1;
      FeeIsConserved(fee[..n], willing[..n]);
      assert fee == fee[..n] + [fee[n]];
    }
  }

  lemma TotalSnoc(assets: seq<Asset>, a: Asset, id: Location)
    ensures Total(assets + [a], id) == Total(assets, id) + if a.id == id && a.fun.Fungible? then a.fun.amount else 0
  {
    assert (assets + [a])[..|assets|] == assets;
  }

  /** What is deposited are the fungible assets whose deposit can succeed, what is burned are the others. */
  lemma {:induction false} DepositedAreTheWilling(fee: seq<Asset>, willing: seq<bool>, a: Asset)
    requires |willing| == |fee|
    ensures a in Deposited(fee, willing) <==> exists i :: 0 <= i < |fee| && fee[i] == a && willing[i] && a.fun.Fungible?
    ensures a in Burned(fee, willing) <==> exists i :: 0 <= i < |fee| && fee[i] == a && !(willing[i] && a.fun.Fungible?)
  {
    if fee == [] {
    } else {
      var n := |fee| - 1;
      DepositedAreTheWilling(fee[..n], willing[..n], a);
    }
  }

  /** So the amounts add up too. */
  lemma {:induction false} AmountsAreConserved(fee: seq<Asset>, willing: seq<bool>, id: Location)
    requires |willing| == |fee|
    ensures Total(Deposited(fee, willing), id) + Total(Burned(fee, willing), id) == Total(fee, id)
  {
    if fee == [] {
    } else {
      var n := |fee| - 1;
      AmountsAreConserved(fee[..n], willing[..n], id);
      TotalSnoc(Deposited(fee[..n], willing[..n]), fee[n], id);
      TotalSnoc(Burned(fee[..n], willing[..n]), fee[n], id);
    }
  }
}
