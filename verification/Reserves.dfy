/** Which chain holds the reserve of an asset, and which origins are trusted as one. */
module Reserves {
  import opened Common
  import opened Locations

  datatype Fungibility = Fungible(amount: nat) | NonFungible(instance: nat)

  datatype Asset = Asset(id: Location, fun: Fungibility)

  const ASSET_HUB_ID: nat := 1000
  const ASSET_HUB := Location(1, [Parachain(ASSET_HUB_ID)])
  const RELAY := Location(1, [])

  /** This chain seen from its relay chain. */
  function SelfAbsolute(self: nat): Location { Location(1, [Parachain(self)]) }

  function OrElse<T>(first: Option<T>, second: Option<T>): Option<T> {
    if first.Some? then first else second
  }

  // ----- Outbound: the providers -----

  function DotReserve(a: Asset): Option<Location> {
    if a.id == Location(1, []) then Some(ASSET_HUB) else None
  }

  function BridgedReserve(a: Asset): Option<Location> {
    if a.id.parents > 1 && a.id.FirstIsGlobalConsensus() then Some(ASSET_HUB) else None
  }

  function RelativeReserve(a: Asset): Option<Location> {
    if a.id.parents == 0 && !a.id.FirstIsParachain() then Some(HERE)
    else Some(a.id.ChainLocation())
  }

  function AbsoluteAndRelativeReserve(self: nat, a: Asset): Option<Location> {
    match RelativeReserve(a)
    case Some(reserve) => Some(if reserve == SelfAbsolute(self) then HERE else reserve)
    case None => None
  }

  /** The three providers tried in turn; the last one always answers. */
  function ReserveProviders(self: nat, a: Asset): (r: Option<Location>)
    ensures r.Some?
  {
    OrElse(DotReserve(a), OrElse(BridgedReserve(a), AbsoluteAndRelativeReserve(self, a)))
  }

  // ----- Inbound: the trust filter -----

  predicate IsBridgedFromAssetHub(a: Asset, origin: Location) {
    ASSET_HUB == origin && a.id.parents == 2 && a.fun.Fungible?
  }

  predicate IsRelayTokenFromAssetHub(a: Asset, origin: Location) {
    a.fun.Fungible? && a.id == RELAY && ASSET_HUB == origin
  }

  predicate IsMultiNative(self: nat, a: Asset, origin: Location) {
    AbsoluteAndRelativeReserve(self, a) == Some(origin)
  }

  predicate TrustedReserve(self: nat, a: Asset, origin: Location) {
    || IsBridgedFromAssetHub(a, origin)
    || IsRelayTokenFromAssetHub(a, origin)
    || IsMultiNative(self, a, origin)
  }

  // ----- What the answers are -----

  /** Where the chain of an asset is, seen from para id `self`: `c` is the path of the asset up to its last
      chain junction. An asset of this chain, under either spelling, is `Here`. */
  predicate IsNativeReserve(self: nat, id: Location, c: seq<Junction>, r: Location) {
    if (id.parents == 0 && (id.interior == [] || !id.interior[0].Parachain?))
       || (id.parents == 1 && c == [Parachain(self)])
    then r == Location(0, [])
    else r == Location(id.parents, c)
  }

  /** The last provider answers with the chain of the asset. */
  lemma NativeReserveMeaning(self: nat, a: Asset, c: seq<Junction>, r: Location)
    requires UpToLastChain(a.id.interior, c)
    ensures AbsoluteAndRelativeReserve(self, a) == Some(r) <==> IsNativeReserve(self, a.id, c, r)
  {
    ChainInteriorMeaning(a.id.interior, c);
  }

  /** The reserve of the relay token, and of every asset more than one level up that starts with a global
      consensus, is para id 1000; the reserve of every other asset is its own chain. */
  lemma ReserveMeaning(self: nat, a: Asset, c: seq<Junction>, r: Location)
    requires UpToLastChain(a.id.interior, c)
    ensures ReserveProviders(self, a) == Some(r) <==>
            if a.id == Location(1, [])
               || (a.id.parents > 1 && a.id.interior != [] && a.id.interior[0].GlobalConsensus?)
            then r == Location(1, [Parachain(1000)])
            else IsNativeReserve(self, a.id, c, r)
  {
    NativeReserveMeaning(self, a, c, r);
  }

  /** An origin is trusted for an asset exactly when it is the chain of the asset, or para id 1000 for a
      fungible asset that is the relay token or two levels up. */
  lemma TrustMeaning(self: nat, a: Asset, c: seq<Junction>, origin: Location)
    requires UpToLastChain(a.id.interior, c)
    ensures TrustedReserve(self, a, origin) <==>
            || IsNativeReserve(self, a.id, c, origin)
            || (&& origin == Location(1, [Parachain(1000)])
                && a.fun.Fungible?
                && (a.id == Location(1, []) || a.id.parents == 2))
  {
    NativeReserveMeaning(self, a, c, origin);
  }

  // ----- Outbound against inbound -----

  /** Assets the first two providers claim for Asset Hub. */
  predicate ClaimedForAssetHub(a: Asset) {
    a.id == RELAY || (a.id.parents > 1 && a.id.FirstIsGlobalConsensus())
  }

  /** Assets that the provider chain sends to Asset Hub but that the filter would not take back from it. */
  predicate OneWay(a: Asset) {
    if a.fun.Fungible?
    then a.id.parents > 2 && a.id.FirstIsGlobalConsensus()
    else ClaimedForAssetHub(a)
  }

  /** The reserve chosen for an asset is trusted for that asset exactly when the asset is not one-way. */
  lemma ProvidersAgreeWithFilter(self: nat, a: Asset)
    ensures TrustedReserve(self, a, ReserveProviders(self, a).value) <==> !OneWay(a)
  {
    if a.id == RELAY {
      assert a.id.ChainLocation() == RELAY;
    }
  }

  /** The filter asks for exactly two parents where the provider asks for more than one. */
  lemma ThreeParentsAreOneWay(self: nat, network: nat, amount: nat)
    ensures var a := Asset(Location(3, [GlobalConsensus(network)]), Fungible(amount));
            ReserveProviders(self, a) == Some(ASSET_HUB) && !TrustedReserve(self, a, ASSET_HUB)
  {
    ProvidersAgreeWithFilter(self, Asset(Location(3, [GlobalConsensus(network)]), Fungible(amount)));
  }

  /** Every origin the filter trusts for an asset. */
  function TrustedOrigins(self: nat, a: Asset): set<Location> {
    {AbsoluteAndRelativeReserve(self, a).value}
    + (if a.fun.Fungible? && (a.id == RELAY || a.id.parents == 2) then {ASSET_HUB} else {})
  }

  /** The filter trusts those origins and no others: the chain of the asset, and Asset Hub for the
      relay token and for assets two levels up. There are two of them exactly in that second case. */
  lemma TrustedOriginsExact(self: nat, a: Asset)
    ensures forall origin :: TrustedReserve(self, a, origin) <==> origin in TrustedOrigins(self, a)
    ensures |TrustedOrigins(self, a)| ==
            if a.fun.Fungible? && (a.id == RELAY || a.id.parents == 2) then 2 else 1
  {
    var native := AbsoluteAndRelativeReserve(self, a).value;
    if a.fun.Fungible? && (a.id == RELAY || a.id.parents == 2) {
      assert native.parents != 1 || native == RELAY;
      assert TrustedOrigins(self, a) == {native, ASSET_HUB};
    } else {
      assert TrustedOrigins(self, a) == {native};
    }
  }

  // ----- Resolving the reserve of a reserve -----

  /** The asset whose id is the reserve location of `a`. */
  function Resolve(self: nat, a: Asset): Asset { Asset(ReserveProviders(self, a).value, a.fun) }

  function Iterate(self: nat, a: Asset, n: nat): Asset {
    if n == 0 then a else Resolve(self, Iterate(self, a, n - 1))
  }

  predicate IsFixpoint(self: nat, a: Asset) { Resolve(self, a) == a }

  /** A path below the relay chain that names no chain: its reserve is the relay chain itself. */
  predicate RelayLocal(a: Asset) { a.id.parents == 1 && a.id.interior != [] && NoChain(a.id.interior) }

  lemma ChainInteriorNonEmpty(js: seq<Junction>)
    requires js != [] && IsChain(js[0])
    ensures ChainInterior(js) != [] && ChainInterior(js)[0] == js[0]
  {
    ChainInteriorEmpty(js);
    PoppingStopsAtLastChain(js);
  }

  /** The last provider alone is idempotent on every chain. */
  lemma NativeReserveIdempotent(self: nat, a: Asset)
    ensures var r := AbsoluteAndRelativeReserve(self, a);
            AbsoluteAndRelativeReserve(self, Asset(r.value, a.fun)) == r
  {
    ChainInteriorIdempotent(a.id.interior);
    PoppingStopsAtLastChain(a.id.interior);
    if a.id.parents == 0 && a.id.FirstIsParachain() {
      ChainInteriorNonEmpty(a.id.interior);
    }
  }

  /** What the last provider leaves of an asset the first two do not claim is not claimed by them
      either, unless it is the relay chain. */
  lemma NativeReserveUnclaimed(self: nat, a: Asset)
    requires !ClaimedForAssetHub(a)
    ensures var r := Resolve(self, a);
            (r.id == RELAY <==> RelayLocal(a)) && (ClaimedForAssetHub(r) ==> r.id == RELAY)
  {
    ChainInteriorEmpty(a.id.interior);
    PoppingStopsAtLastChain(a.id.interior);
  }

  /** Asset Hub is its own reserve everywhere but on Asset Hub, where it is `Here`. */
  lemma AssetHubSettles(self: nat, fun: Fungibility)
    ensures Resolve(self, Asset(ASSET_HUB, fun)).id == if self == ASSET_HUB_ID then HERE else ASSET_HUB
    ensures Resolve(self, Asset(HERE, fun)).id == HERE
  {
    ChainInteriorSingle(Parachain(ASSET_HUB_ID), []);
    assert [Parachain(ASSET_HUB_ID)] + [] == [Parachain(ASSET_HUB_ID)];
  }

  /** One resolution reaches a fixpoint except below the relay chain, and on Asset Hub itself except
      for the assets claimed for Asset Hub. */
  lemma OneResolutionSettles(self: nat, a: Asset)
    ensures IsFixpoint(self, Resolve(self, a)) <==>
            !(RelayLocal(a) || (self == ASSET_HUB_ID && ClaimedForAssetHub(a)))
  {
    if ClaimedForAssetHub(a) {
      AssetHubSettles(self, a.fun);
      assert !RelayLocal(a);
    } else {
      NativeReserveUnclaimed(self, a);
      NativeReserveIdempotent(self, a);
    }
  }

  /** Two resolutions reach a fixpoint from every asset on every chain but Asset Hub, and there
      from every asset that is not below the relay chain. */
  lemma TwoResolutionsSettle(self: nat, a: Asset)
    ensures IsFixpoint(self, Resolve(self, Resolve(self, a))) <==> !(self == ASSET_HUB_ID && RelayLocal(a))
  {
    var b := Resolve(self, a);
    OneResolutionSettles(self, a);
    OneResolutionSettles(self, b);
    AssetHubSettles(self, a.fun);
    if RelayLocal(a) {
      NativeReserveUnclaimed(self, a);
    } else if ClaimedForAssetHub(a) {
      assert b.id == ASSET_HUB;
      assert IsFixpoint(self, Resolve(self, b));
    }
  }

  /** On Asset Hub a pallet of the relay chain resolves to the relay chain, to Asset Hub, and only then
      to `Here`. */
  lemma TwoResolutionsFailOnAssetHub(fun: Fungibility)
    ensures var a := Asset(Location(1, [PalletInstance(0)]), fun);
            !IsFixpoint(ASSET_HUB_ID, Resolve(ASSET_HUB_ID, Resolve(ASSET_HUB_ID, a)))
  {
    TwoResolutionsSettle(ASSET_HUB_ID, Asset(Location(1, [PalletInstance(0)]), fun));
  }

  lemma ReserveIsNotRelayLocal(self: nat, a: Asset)
    ensures !RelayLocal(Resolve(self, a))
  {
    PoppingStopsAtLastChain(a.id.interior);
    assert IsChain(ASSET_HUB.interior[0]);
  }

  lemma ThirdResolutionSettles(self: nat, a: Asset)
    ensures IsFixpoint(self, Iterate(self, a, 3))
  {
    assert Iterate(self, a, 1) == Resolve(self, a);
    assert Iterate(self, a, 2) == Resolve(self, Resolve(self, a));
    ReserveIsNotRelayLocal(self, a);
    TwoResolutionsSettle(self, Resolve(self, a));
  }

  /** Three resolutions always reach a fixpoint, so the reserve of a reserve never cycles. */
  lemma {:induction false} ResolutionTerminates(self: nat, a: Asset, n: nat)
    requires n >= 3
    ensures Iterate(self, a, n) == Iterate(self, a, 3)
  {
    if n > 3 {
      ResolutionTerminates(self, a, n - 1);
      ThirdResolutionSettles(self, a);
    }
  }

  // ----- Spellings of the same asset -----

  /** An asset of this chain has the same reserve under its relative and under its absolute spelling
      exactly when its path names no further chain; the reserve is then this chain. */
  lemma SpellingsAgree(self: nat, js: seq<Junction>, fun: Fungibility)
    ensures var relative := ReserveProviders(self, Asset(Location(0, js), fun));
            var absolute := ReserveProviders(self, Asset(Location(1, [Parachain(self)] + js), fun));
            && (relative == absolute <==> NoChain(js))
            && (NoChain(js) ==> relative == Some(HERE))
            && (absolute == Some(HERE) <==> NoChain(js))
  {
    var path := [Parachain(self)] + js;
    ChainInteriorSingle(Parachain(self), js);
    ChainInteriorNonEmpty(path);
    if Location(0, js).FirstIsParachain() {
      assert IsChain(js[0]);
    }
  }
}
