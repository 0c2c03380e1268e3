/** Universal consensus locations: how many consensus systems to go up, then a path downwards. */
module Locations {
  import opened Common

  /** The interior of a `Location` holds at most this many junctions. */
  const MAX_JUNCTIONS: nat := 8

  datatype Junction =
    | Parachain(id: nat)
    | AccountId32(network: Option<nat>, account: seq<byte>)
    | AccountIndex64(network: Option<nat>, index: nat)
    | AccountKey20(network: Option<nat>, key: H160)
    | PalletInstance(pallet: u8)
    | GeneralIndex(general: nat)
    | GeneralKey(data: seq<byte>)
    | OnlyChild
    | Plurality(body: nat, part: nat)
    | GlobalConsensus(consensus: nat)

  /** Junctions that name a chain of their own. */
  predicate IsChain(j: Junction) { j.Parachain? || j.GlobalConsensus? }

  /** Pops junctions off the end until the last one names a chain. */
  function ChainInterior(js: seq<Junction>): seq<Junction> {
    if js == [] then []
    else if IsChain(js[|js| - 1]) then js
    else ChainInterior(js[..|js| - 1])
  }

  datatype Location = Location(parents: nat, interior: seq<Junction>) {
    predicate FirstIsParachain() { interior != [] && interior[0].Parachain? }

    predicate FirstIsGlobalConsensus() { interior != [] && interior[0].GlobalConsensus? }

    /** The part of the location that names a chain. */
    function ChainLocation(): Location { Location(parents, ChainInterior(interior)) }
  }

  const HERE := Location(0, [])

  predicate NoChain(js: seq<Junction>) { forall i :: 0 <= i < |js| ==> !IsChain(js[i]) }

  /** `c` is everything in `js` up to and including its last parachain or global consensus. */
  ghost predicate UpToLastChain(js: seq<Junction>, c: seq<Junction>) {
    && c <= js
    && (c == [] || c[|c| - 1].Parachain? || c[|c| - 1].GlobalConsensus?)
    && (forall i :: |c| <= i < |js| ==> !js[i].Parachain? && !js[i].GlobalConsensus?)
  }

  lemma LaterCutIsNoCut(js: seq<Junction>, c: seq<Junction>, d: seq<Junction>)
    requires UpToLastChain(js, c) && UpToLastChain(js, d)
    ensures |c| <= |d|
  {
    assert c != [] ==> IsChain(js[|c| - 1]);
  }

  lemma {:induction false} PoppingStopsAtLastChain(js: seq<Junction>)
    ensures UpToLastChain(js, ChainInterior(js))
  {
    if js != [] && !IsChain(js[|js| - 1]) {
      var front := js[..|js| - 1];
      PoppingStopsAtLastChain(front);
      var n := |ChainInterior(front)|;
      assert js[n..] == front[n..] + [js[|js| - 1]];
    }
  }

  /** The popping loop computes the cut after the last chain junction, and nothing else is such a cut. */
  lemma {:induction false} ChainInteriorMeaning(js: seq<Junction>, c: seq<Junction>)
    ensures c == ChainInterior(js) <==> UpToLastChain(js, c)
  {
    PoppingStopsAtLastChain(js);
    if UpToLastChain(js, c) {
      LaterCutIsNoCut(js, c, ChainInterior(js));
      LaterCutIsNoCut(js, ChainInterior(js), c);
    }
  }

  /** Cutting twice is cutting once. */
  lemma ChainInteriorIdempotent(js: seq<Junction>)
    ensures ChainInterior(ChainInterior(js)) == ChainInterior(js)
  {
    PoppingStopsAtLastChain(js);
  }

  /** There is nothing left of a path without chain junctions, and only of those. */
  lemma ChainInteriorEmpty(js: seq<Junction>)
    ensures ChainInterior(js) == [] <==> NoChain(js)
  {
    ChainInteriorMeaning(js, []);
    assert js[0..] == js;
  }

  /** A chain in front of a path without chain junctions is all that is left. */
  lemma ChainInteriorSingle(j: Junction, js: seq<Junction>)
    requires IsChain(j)
    ensures ChainInterior([j] + js) == [j] <==> NoChain(js)
  {
    ChainInteriorMeaning([j] + js, [j]);
    assert ([j] + js)[1..] == js;
  }
}
