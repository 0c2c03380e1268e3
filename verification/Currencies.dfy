/** Currencies of the EVM template as locations. */
module Currencies {
  import opened Common
  import opened Locations

  datatype CurrencyId = SelfReserve | ForeignAsset(asset: u128) | Erc20(contract: H160)

  /** The registry of foreign assets, kept in both directions. */
  datatype Registry = Registry(locationOf: map<u128, Location>, assetOf: map<Location, u128>) {
    /** The two maps are inverse to each other. */
    ghost predicate Consistent() {
      && (forall a :: a in locationOf ==> locationOf[a] in assetOf && assetOf[locationOf[a]] == a)
      && (forall l :: l in assetOf ==> assetOf[l] in locationOf && locationOf[assetOf[l]] == l)
    }

    /** Foreign assets live on other chains. */
    ghost predicate Foreign() { forall a :: a in locationOf ==> locationOf[a].parents > 0 }
  }

  /** The indices of the balances pallet, and the location under which ERC-20 contracts are. */
  datatype Pallets = Pallets(balances: u8, erc20: Location)

  /** Adds a junction at the end. A full interior is left as it is. */
  function PushInterior(l: Location, j: Junction): (r: (Location, bool))
    ensures r.1 <==> |l.interior| < MAX_JUNCTIONS
  {
    if |l.interior| < MAX_JUNCTIONS then (Location(l.parents, l.interior + [j]), true) else (l, false)
  }

  function Erc20Location(base: Location, contract: H160): Location {
    PushInterior(base, AccountKey20(None, contract)).0
  }

  function LocationOf(currency: CurrencyId, registry: Registry, pallets: Pallets): Option<Location> {
    match currency
    case SelfReserve => Some(Location(0, [PalletInstance(pallets.balances)]))
    case ForeignAsset(asset) =>
      if asset in registry.locationOf then Some(registry.locationOf[asset]) else None
    case Erc20(contract) => Some(Erc20Location(pallets.erc20, contract))
  }

  /** The conversion as the runtime performs it, on a location changed in place. The native token and
      every contract have a location, a foreign asset has one exactly when it is registered. The location
      of a contract is below the bridge and ends in its address; without room it is the bridge itself. */
  method Convert(currency: CurrencyId, registry: Registry, pallets: Pallets) returns (r: Option<Location>)
    ensures r == LocationOf(currency, registry, pallets)
    ensures r.None? <==> currency.ForeignAsset? && currency.asset !in registry.locationOf
    ensures currency.ForeignAsset? && r.Some? && registry.Consistent() ==>
              r.value in registry.assetOf && registry.assetOf[r.value] == currency.asset
    ensures currency.SelfReserve? ==> r == Some(Location(0, [PalletInstance(pallets.balances)]))
    ensures currency.Erc20? ==>
              && r.value.parents == pallets.erc20.parents
              && r.value.interior == pallets.erc20.interior
                 + if |pallets.erc20.interior| < 8 then [AccountKey20(None, currency.contract)] else []
  {
    match currency
    case SelfReserve =>
      r := Some(Location(0, [PalletInstance(pallets.balances)]));
    case ForeignAsset(asset) =>
      r := if asset in registry.locationOf then Some(registry.locationOf[asset]) else None;
    case Erc20(contract) =>
      var location := pallets.erc20;
      var pushed := PushInterior(location, AccountKey20(None, contract));
      location := pushed.0;
      r := Some(location);
      assert pallets.erc20.interior + [] == pallets.erc20.interior;
  }

  /** Two currencies with the same location are the same currency. */
  ghost predicate Injective(registry: Registry, pallets: Pallets) {
    forall c, d ::
      (&& LocationOf(c, registry, pallets).Some?
       && LocationOf(c, registry, pallets) == LocationOf(d, registry, pallets))
      ==> c == d
  }

  /** No registered location is one of this chain's own currencies. */
  ghost predicate OwnCurrenciesUnregistered(registry: Registry, pallets: Pallets) {
    && Location(0, [PalletInstance(pallets.balances)]) !in registry.assetOf
    && forall k: H160 :: Erc20Location(pallets.erc20, k) !in registry.assetOf
  }

  lemma NoRoomCollides(registry: Registry, pallets: Pallets)
    requires |pallets.erc20.interior| >= MAX_JUNCTIONS
    ensures !Injective(registry, pallets)
  {
    var zeros: H160, ones: H160 := seq(20, i => 0), seq(20, i => 1);
    assert zeros[0] != ones[0];
    assert LocationOf(Erc20(zeros), registry, pallets) == LocationOf(Erc20(ones), registry, pallets);
  }

  lemma RegisteredCollides(own: CurrencyId, registry: Registry, pallets: Pallets)
    requires registry.Consistent() && !own.ForeignAsset?
    requires LocationOf(own, registry, pallets).value in registry.assetOf
    ensures !Injective(registry, pallets)
  {
    var foreign := ForeignAsset(registry.assetOf[LocationOf(own, registry, pallets).value]);
    assert LocationOf(foreign, registry, pallets) == LocationOf(own, registry, pallets);
  }

  lemma SameLocationSameCurrency(c: CurrencyId, d: CurrencyId, registry: Registry, pallets: Pallets)
    requires registry.Consistent() && OwnCurrenciesUnregistered(registry, pallets)
    requires |pallets.erc20.interior| < MAX_JUNCTIONS
    requires LocationOf(c, registry, pallets).Some?
    requires LocationOf(c, registry, pallets) == LocationOf(d, registry, pallets)
    ensures c == d
  {
    var base := pallets.erc20.interior;
    forall k: H160
      ensures Erc20Location(pallets.erc20, k).interior[|base|] == AccountKey20(None, k)
    {
    }
  }

  /** With a consistent registry, no two currencies share a location exactly when the ERC-20 location
      has room for one more junction and no registered location is one of this chain's own currencies.
      Without room the address is dropped silently and all contracts share one location. */
  lemma ConversionInjective(registry: Registry, pallets: Pallets)
    requires registry.Consistent()
    ensures Injective(registry, pallets) <==>
            |pallets.erc20.interior| < MAX_JUNCTIONS && OwnCurrenciesUnregistered(registry, pallets)
  {
    if |pallets.erc20.interior| < MAX_JUNCTIONS && OwnCurrenciesUnregistered(registry, pallets) {
      forall c: CurrencyId, d: CurrencyId |
        && LocationOf(c, registry, pallets).Some?
        && LocationOf(c, registry, pallets) == LocationOf(d, registry, pallets)
        ensures c == d
      {
        SameLocationSameCurrency(c, d, registry, pallets);
      }
    }
    if |pallets.erc20.interior| >= MAX_JUNCTIONS {
      NoRoomCollides(registry, pallets);
    } else if Location(0, [PalletInstance(pallets.balances)]) in registry.assetOf {
      RegisteredCollides(SelfReserve, registry, pallets);
    } else if k: H160 :| Erc20Location(pallets.erc20, k) in registry.assetOf {
      RegisteredCollides(Erc20(k), registry, pallets);
    }
  }

  /** A pallet of this chain and a registry of assets on other chains are enough. */
  lemma LocalPalletsNeedOnlyRoom(registry: Registry, pallets: Pallets)
    requires registry.Consistent() && registry.Foreign() && pallets.erc20.parents == 0
    ensures Injective(registry, pallets) <==> |pallets.erc20.interior| < MAX_JUNCTIONS
  {
    ConversionInjective(registry, pallets);
    forall l | l in registry.assetOf
      ensures l.parents > 0
    {
      assert registry.assetOf[l] in registry.locationOf;
    }
    assert forall k: H160 :: Erc20Location(pallets.erc20, k).parents == 0;
  }

  /** The generic template has no ERC-20 currencies; there, an unregistered native token is the whole
      condition. */
  lemma TwoVariantsInjective(registry: Registry, pallets: Pallets)
    requires registry.Consistent()
    ensures (forall c: CurrencyId, d: CurrencyId ::
               (&& !c.Erc20? && !d.Erc20?
                && LocationOf(c, registry, pallets).Some?
                && LocationOf(c, registry, pallets) == LocationOf(d, registry, pallets))
               ==> c == d)
            <==> Location(0, [PalletInstance(pallets.balances)]) !in registry.assetOf
  {
    var native := Location(0, [PalletInstance(pallets.balances)]);
    if native in registry.assetOf {
      assert LocationOf(ForeignAsset(registry.assetOf[native]), registry, pallets) == LocationOf(SelfReserve, registry, pallets);
    }
  }
}
