/** The precompiled contracts of the EVM template. */
module Precompiles {
  import opened Common
  import opened AssetCodec
  import opened BigEndian

  datatype Precompile = ECRecover | Sha256 | Ripemd160 | Identity | Modexp | Sha3FIPS256 | ECRecoverPublicKey

  /** How a number becomes an address. */
  type Numbering = u64 -> H160

  function UsedAddresses(hash: Numbering): (a: seq<H160>)
    ensures |a| == 7
  {
    [hash(1), hash(2), hash(3), hash(4), hash(5), hash(1024), hash(1025)]
  }

  /** Which precompile runs for a code address, if any. */
  function Execute(hash: Numbering, address: H160): Option<Precompile> {
    if address == hash(1) then Some(ECRecover)
    else if address == hash(2) then Some(Sha256)
    else if address == hash(3) then Some(Ripemd160)
    else if address == hash(4) then Some(Identity)
    else if address == hash(5) then Some(Modexp)
    else if address == hash(1024) then Some(Sha3FIPS256)
    else if address == hash(1025) then Some(ECRecoverPublicKey)
    else None
  }

  predicate IsPrecompile(hash: Numbering, address: H160) { address in UsedAddresses(hash) }

  const TABLE: seq<Precompile> := [ECRecover, Sha256, Ripemd160, Identity, Modexp, Sha3FIPS256, ECRecoverPublicKey]

  /** An address is reported as a precompile exactly when it runs one, and two addresses that run the
      same precompile are the same. */
  lemma DispatchAgreesWithReport(hash: Numbering, address: H160, other: H160)
    ensures IsPrecompile(hash, address) <==> Execute(hash, address).Some?
    ensures Execute(hash, address).Some? && Execute(hash, address) == Execute(hash, other) ==> address == other
  {
    var used := UsedAddresses(hash);
    assert used[0] == hash(1) && used[1] == hash(2) && used[2] == hash(3) && used[3] == hash(4);
    assert used[4] == hash(5) && used[5] == hash(1024) && used[6] == hash(1025);
  }

  lemma InjectiveNumbering(hash: Numbering, i: nat)
    requires i < 7
    requires forall n: u64, m: u64 :: hash(n) == hash(m) <==> n == m
    ensures Execute(hash, UsedAddresses(hash)[i]) == Some(TABLE[i])
  {
  }

  /** No arm of the dispatch is shadowed by an earlier one, and no address is listed twice: the
      address at each place of the list runs the precompile at that place. */
  lemma NoArmIsShadowed(i: nat)
    requires i < 7
    ensures Execute(FromLowU64, UsedAddresses(FromLowU64)[i]) == Some(TABLE[i])
  {
    forall n: u64, m: u64
      ensures FromLowU64(n) == FromLowU64(m) <==> n == m
    {
      NumberedAddressesAreDistinct(n, m);
    }
    InjectiveNumbering(FromLowU64, i);
  }

  /** The precompile at the address of a given value. */
  function AtValue(value: nat): Option<Precompile> {
    match value
    case 1 => Some(ECRecover)
    case 2 => Some(Sha256)
    case 3 => Some(Ripemd160)
    case 4 => Some(Identity)
    case 5 => Some(Modexp)
    case 1024 => Some(Sha3FIPS256)
    case 1025 => Some(ECRecoverPublicKey)
    case _ => None
  }

  lemma NumberedByValue(hash: Numbering, a: H160, value: nat)
    requires forall n: u64 :: a == hash(n) <==> value == n
    ensures Execute(hash, a) == AtValue(value)
    ensures IsPrecompile(hash, a) <==> value in {1, 2, 3, 4, 5, 1024, 1025}
  {
    DispatchAgreesWithReport(hash, a, a);
  }

  /** What runs at an address, and whether it is reported, is decided by the value of its twenty bytes. */
  lemma DispatchByValue(a: H160)
    ensures Execute(FromLowU64, a) == AtValue(FromBytes(a))
    ensures IsPrecompile(FromLowU64, a) <==> FromBytes(a) in {1, 2, 3, 4, 5, 1024, 1025}
  {
    forall n: u64
      ensures a == FromLowU64(n) <==> FromBytes(a) == n
    {
      NumberedAddressMeaning(n, a);
    }
    NumberedByValue(FromLowU64, a, FromBytes(a));
  }
}
