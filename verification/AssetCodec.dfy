/** Asset ids as accounts: a fixed prefix of set bits, then the id, most significant byte first. */
module AssetCodec {
  import opened Common
  import opened BigEndian

  /** How an account is divided. */
  datatype Layout = Layout(prefix: nat, id: nat) {
    function Width(): nat { prefix + id }

    /** The prefix of the accounts that stand for foreign assets. */
    function Marker(): seq<byte> { Fill(255, prefix) }
  }

  /** 160-bit accounts with 128-bit ids, and 256-bit accounts with 32-bit ids. */
  const EVM := Layout(4, 16)
  const GENERIC := Layout(28, 4)

  /** The ids of each layout are exactly the numbers of the template's asset id type. */
  lemma LayoutsFitTemplates()
    ensures EVM.Width() == 20 && Pow256(EVM.id) == U128_LIMIT
    ensures GENERIC.Width() == 32 && Pow256(GENERIC.id) == U32_LIMIT
  {
    Widths();
  }

  // ----- The specification -----

  predicate IsMarked(l: Layout, account: seq<byte>)
    requires |account| == l.Width()
  {
    account[..l.prefix] == l.Marker()
  }

  function Decoded(l: Layout, account: seq<byte>): Option<(seq<byte>, nat)>
    requires |account| == l.Width()
  {
    if IsMarked(l, account) then Some((account[..l.prefix], FromBytes(account[l.prefix..]))) else None
  }

  function Encoded(l: Layout, prefix: seq<byte>, id: nat): (account: seq<byte>)
    requires |prefix| == l.prefix && id < Pow256(l.id)
    ensures |account| == l.Width()
  {
    prefix + ToBytes(id, l.id)
  }

  // ----- The code: fixed buffers filled in place -----

  method CopyFromSlice(data: array<byte>, start: nat, source: seq<byte>)
    requires start + |source| <= data.Length
    modifies data
    ensures data[..] == old(data[..start]) + source + old(data[start + |source|..])
  {
    for i := 0 to |source|
      invariant data[..start] == old(data[..start])
      invariant data[start..start + i] == source[..i]
      invariant data[start + i..] == old(data[start + i..])
    {
      data[start + i] := source[i];
      assert data[start..start + i + 1] == data[start..start + i] + [source[i]];
    }
    assert data[..] == data[..start] + data[start..start + |source|] + data[start + |source|..];
    assert source[..|source|] == source;
  }

  method AssetIdToAccount(l: Layout, prefix: seq<byte>, id: nat) returns (account: seq<byte>)
    requires |prefix| == l.prefix && id < Pow256(l.id)
    ensures account == Encoded(l, prefix, id)
    ensures account[..l.prefix] == prefix && FromBytes(account[l.prefix..]) == id
  {
    var data := new byte[l.Width()];
    CopyFromSlice(data, 0, prefix);
    CopyFromSlice(data, l.prefix, ToBytes(id, l.id));
    account := data[..];
    assert account[l.prefix..] == ToBytes(id, l.id);
    FromToBytes(id, l.id);
  }

  method AccountToAssetId(l: Layout, account: seq<byte>) returns (r: Option<(seq<byte>, nat)>)
    requires |account| == l.Width()
    ensures r == Decoded(l, account)
  {
    var data := new byte[l.id];
    var prefixPart, idPart := account[..l.prefix], account[l.prefix..];
    if prefixPart != l.Marker() {
      return None;
    }
    CopyFromSlice(data, 0, idPart);
    assert data[..] == idPart;
    return Some((prefixPart, FromBytes(data[..])));
  }

  // ----- Inverses of each other -----

  /** An id is recovered from its account under the marker, and an account under any other prefix
      stands for no asset. */
  lemma DecodeAfterEncode(l: Layout, prefix: seq<byte>, id: nat)
    requires |prefix| == l.prefix && id < Pow256(l.id)
    ensures Decoded(l, Encoded(l, prefix, id))
            == if prefix == l.Marker() then Some((prefix, id)) else None
  {
    var account := Encoded(l, prefix, id);
    assert account[..l.prefix] == prefix && account[l.prefix..] == ToBytes(id, l.id);
    FromToBytes(id, l.id);
  }

  lemma MarkedMeaning(l: Layout, account: seq<byte>)
    requires |account| == l.Width()
    ensures IsMarked(l, account) <==> forall i :: 0 <= i < l.prefix ==> account[i] == 255
  {
    var marker := l.Marker();
    assert forall i :: 0 <= i < l.prefix ==> account[..l.prefix][i] == account[i] && marker[i] == 255;
  }

  /** Every marked account is the account of exactly one id, the one it decodes to; every other
      account decodes to nothing. */
  lemma EncodeAfterDecode(l: Layout, account: seq<byte>, id: nat)
    requires |account| == l.Width() && id < Pow256(l.id)
    ensures Decoded(l, account).Some? <==> forall i :: 0 <= i < l.prefix ==> account[i] == 255
    ensures Decoded(l, account) == Some((l.Marker(), id)) <==> Encoded(l, l.Marker(), id) == account
  {
    MarkedMeaning(l, account);
    DecodeAfterEncode(l, l.Marker(), id);
    if IsMarked(l, account) {
      ToFromBytes(account[l.prefix..]);
      assert account == l.Marker() + account[l.prefix..];
    }
  }

  /** Different ids have different accounts. */
  lemma AccountsAreDistinct(l: Layout, id: nat, other: nat)
    requires id < Pow256(l.id) && other < Pow256(l.id)
    requires Encoded(l, l.Marker(), id) == Encoded(l, l.Marker(), other)
    ensures id == other
  {
    DecodeAfterEncode(l, l.Marker(), id);
    DecodeAfterEncode(l, l.Marker(), other);
  }

  /** A numbered address has twelve zero bytes in front of the eight of its number. */
  const PADDING: nat := 12
  const WORD: nat := 8

  /** A 64-bit number as an address, as the precompiles are numbered. */
  function FromLowU64(n: u64): H160 {
    Widths();
    Fill(0, PADDING) + ToBytes(n, WORD)
  }

  /** The twenty bytes of a numbered address have the value of its number, and no other address has it. */
  lemma NumberedAddressMeaning(n: u64, a: H160)
    ensures a == FromLowU64(n) <==> FromBytes(a) == n
  {
    Widths();
    FromToBytes(n, WORD);
    LeadingZeros(PADDING, ToBytes(n, WORD));
    FromBytesInjective(a, FromLowU64(n));
  }

  /** No numbered address stands for an asset. */
  lemma NumberedAddressIsNoAsset(n: u64)
    ensures Decoded(EVM, FromLowU64(n)) == None
  {
    assert FromLowU64(n)[..4][0] == 0 && EVM.Marker()[0] == 255;
  }

  /** Numbered addresses are pairwise different. */
  lemma NumberedAddressesAreDistinct(n: u64, m: u64)
    ensures FromLowU64(n) == FromLowU64(m) <==> n == m
  {
    NumberedAddressMeaning(n, FromLowU64(m));
    NumberedAddressMeaning(m, FromLowU64(m));
  }

  /** The root operator account, all bits set, stands for the largest asset id and for no other. */
  lemma RootOperatorIsLargestAsset(id: u128)
    ensures id < Pow256(16)
    ensures Encoded(EVM, EVM.Marker(), id) == Fill(255, 20) <==> id == U128_LIMIT - 1
  {
    Widths();
    var operator := Fill(255, 20);
    assert operator[..4] == EVM.Marker() && operator[4..] == Fill(255, 16);
    LargestIsAllOnes(16);
    EncodeAfterDecode(EVM, operator, id);
  }
}
