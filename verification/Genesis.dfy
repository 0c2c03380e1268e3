/** The contracts and precompiles in the genesis state of the EVM template. */
module Genesis {
  import opened Common
  import opened AssetCodec
  import opened BigEndian
  import opened Precompiles
  import Hex

  datatype Style = Hardhat | Forge

  /** A contract as it is deployed. */
  datatype Contract = Contract(style: Style, bytecode: seq<byte>)

  /** What stands in one contract file: nothing that can be opened, something that is no artefact, or
      an artefact with its bytecode as text. */
  datatype File = CannotOpen | Malformed | Artefact(style: Style, text: seq<byte>)

  datatype Entry = Entry(address: H160, file: File)

  datatype ParsingError = MetadataReadError | MetadataParseError

  datatype Metadata = Entries(entries: seq<Entry>) | Unreadable(error: ParsingError)

  /** Where to look for contracts, with what is found in `contracts.json` there. */
  datatype ContractsPath = Nowhere | Default | At(metadata: Metadata)

  /** The contract deployed by default. */
  datatype EntryPoint = EntryPoint(address: H160, contract: Contract)

  /** What becomes of reading one file. */
  datatype Reading = Skipped | Loaded(contract: Contract) | Crash

  function Read(file: File): Reading {
    if !file.Artefact? then Skipped
    else match Hex.DeserializeBytecode(file.text)
      case Decoded(bytes) => Loaded(Contract(file.style, bytes))
      case Rejected => Skipped
      case Panicked => Crash
  }

  /** `text` spells `code`: two bytes, then the base-16 form of the code in any mixture of cases. */
  ghost predicate Spells(text: seq<byte>, code: seq<byte>) {
    |text| >= 2 && Hex.IsUpperCaseOf(Hex.Encode(code), text[2..])
  }

  /** The file is an artefact, in either style, whose text spells the bytecode of the contract. */
  ghost predicate HoldsContract(file: File, c: Contract) {
    file.Artefact? && c.style == file.style && Spells(file.text, c.bytecode)
  }

  ghost predicate Readable(file: File) { exists c :: HoldsContract(file, c) }

  /** The file is an artefact whose text is too short, or would be cut inside a character. */
  predicate Crashing(file: File) {
    file.Artefact? && (|file.text| < 2 || (|file.text| > 2 && 0x80 <= file.text[2] < 0xC0))
  }

  /** A file is loaded exactly when it holds a contract, which is then the one it holds; it crashes the
      load exactly when its text cannot be cut; every other file is skipped. */
  lemma ReadMeaning(file: File, c: Contract)
    ensures Read(file) == Loaded(c) <==> HoldsContract(file, c)
    ensures Read(file).Loaded? <==> Readable(file)
    ensures Read(file).Crash? <==> Crashing(file)
  {
    forall d: Contract
      ensures Read(file) == Loaded(d) <==> HoldsContract(file, d)
    {
      if file.Artefact? {
        Hex.BytecodeMeaning(file.text, d.bytecode);
      }
    }
    if Read(file).Loaded? {
      assert HoldsContract(file, Read(file).contract);
    }
    if file.Artefact? {
      Hex.PanickedMeaning(file.text);
    }
  }

  datatype Parsed = Contracts(contracts: map<H160, Contract>) | Failed(error: ParsingError) | Crashed

  /** Entry `i` is the last one for `address` whose file can be read. */
  ghost predicate LastRead(entries: seq<Entry>, i: nat, address: H160) {
    && i < |entries|
    && entries[i].address == address
    && Readable(entries[i].file)
    && forall j :: i < j < |entries| && entries[j].address == address ==> !Readable(entries[j].file)
  }

  /** `contracts` holds, for each address, the contract of its last readable entry. */
  ghost predicate LastWriterWins(entries: seq<Entry>, contracts: map<H160, Contract>) {
    && (forall i: nat, a: H160 :: LastRead(entries, i, a) ==>
          a in contracts && HoldsContract(entries[i].file, contracts[a]))
    && (forall a :: a in contracts ==> exists i: nat :: LastRead(entries, i, a))
  }

  /** Whether reading some file crashes. */
  ghost predicate SomeFileCrashes(entries: seq<Entry>) {
    exists i :: 0 <= i < |entries| && Crashing(entries[i].file)
  }

  lemma OneMoreEntry(entries: seq<Entry>, i: nat, contracts: map<H160, Contract>, c: Contract)
    requires i < |entries| && LastWriterWins(entries[..i], contracts)
    requires Readable(entries[i].file) ==> HoldsContract(entries[i].file, c)
    ensures LastWriterWins(entries[..i + 1],
                           if Readable(entries[i].file) then contracts[entries[i].address := c] else contracts)
  {
    var e, before, after := entries[i], entries[..i], entries[..i + 1];
    var now := if Readable(e.file) then contracts[e.address := c] else contracts;
    assert after == before + [e];
    forall a | a in now
      ensures exists k: nat :: LastRead(after, k, a)
    {
      if Readable(e.file) && a == e.address {
        assert LastRead(after, i, a);
      } else {
        var k: nat :| LastRead(before, k, a);
        assert LastRead(after, k, a);
      }
    }
    forall k: nat, a: H160 | LastRead(after, k, a)
      ensures a in now && HoldsContract(after[k].file, now[a])
    {
      if k < i {
        assert after[i] == e;
        assert LastRead(before, k, a);
      }
    }
  }

  method ParseContracts(path: ContractsPath, entry: EntryPoint) returns (r: Parsed)
    ensures path.Nowhere? ==> r == Contracts(map[])
    ensures path.Default? ==> r == Contracts(map[entry.address := entry.contract])
    ensures path.At? && path.metadata.Unreadable? ==> r == Failed(path.metadata.error)
    ensures path.At? && path.metadata.Entries? ==>
              if SomeFileCrashes(path.metadata.entries) then r == Crashed
              else r.Contracts? && LastWriterWins(path.metadata.entries, r.contracts)
  {
    var res: map<H160, Contract> := map[];
    match path
    case Nowhere =>
      return Contracts(res);
    case Default =>
      return Contracts(res[entry.address := entry.contract]);
    case At(Unreadable(error)) =>
      return Failed(error);
    case At(Entries(metadatas)) =>
      for i := 0 to |metadatas|
        invariant forall j :: 0 <= j < i ==> !Crashing(metadatas[j].file)
        invariant LastWriterWins(metadatas[..i], res)
      {
        var reading := Read(metadatas[i].file);
        ghost var held := if reading.Loaded? then reading.contract else Contract(Hardhat, []);
        ReadMeaning(metadatas[i].file, held);
        OneMoreEntry(metadatas, i, res, held);
        if reading.Crash? {
          return Crashed;
        }
        if reading.Skipped? {
          continue;
        }
        res := res[metadatas[i].address := reading.contract];
      }
      assert metadatas[..|metadatas|] == metadatas;
      return Contracts(res);
  }

  /** PUSH1 0x00 PUSH1 0x00 REVERT */
  const REVERT_STUB: seq<byte> := [0x60, 0x00, 0x60, 0x00, 0xFD]

  /** The code of each genesis account: the contracts, then the precompiles over them. */
  function Overlay(contracts: map<H160, Contract>): map<H160, seq<byte>> {
    (map a | a in contracts :: contracts[a].bytecode) + (map a | a in UsedAddresses(FromLowU64) :: REVERT_STUB)
  }

  /** The address and bytecode a contract source deploys, whatever the overlay does to it. */
  ghost predicate Deploys(path: ContractsPath, entry: EntryPoint, address: H160, code: seq<byte>) {
    match path
    case Nowhere => false
    case Default => address == entry.address && code == entry.contract.bytecode
    case At(Unreadable(_)) => false
    case At(Entries(entries)) =>
      exists i: nat :: LastRead(entries, i, address) && Spells(entries[i].file.text, code)
  }

  lemma ContractsAreSpelled(entries: seq<Entry>, contracts: map<H160, Contract>, a: H160, code: seq<byte>)
    requires LastWriterWins(entries, contracts)
    ensures a in contracts && contracts[a].bytecode == code <==>
            exists i: nat :: LastRead(entries, i, a) && Spells(entries[i].file.text, code)
  {
    forall i: nat | LastRead(entries, i, a)
      ensures Spells(entries[i].file.text, code) <==> contracts[a].bytecode == code
    {
      Hex.BytecodeMeaning(entries[i].file.text, code);
      Hex.BytecodeMeaning(entries[i].file.text, contracts[a].bytecode);
    }
  }

  /** The addresses of the precompiles, by value. */
  predicate IsReserved(a: H160) { FromBytes(a) in {1, 2, 3, 4, 5, 1024, 1025} }

  /** Every precompile address reverts; every other address has the code spelled by the last readable
      entry for it, and no account without one. A path that cannot be read deploys nothing, and there is
      no genesis state, `None`, exactly when reading some file crashes. */
  method GenesisAccounts(path: ContractsPath, entry: EntryPoint) returns (r: Option<map<H160, seq<byte>>>)
    ensures r == None <==> path.At? && path.metadata.Entries? && SomeFileCrashes(path.metadata.entries)
    ensures r.Some? ==> forall a :: IsReserved(a) ==> a in r.value && r.value[a] == [0x60, 0x00, 0x60, 0x00, 0xFD]
    ensures r.Some? ==> forall a, code :: !IsReserved(a) ==>
              (a in r.value && r.value[a] == code <==> Deploys(path, entry, a, code))
  {
    var parsed := ParseContracts(path, entry);
    if parsed.Crashed? {
      return None;
    }
    var contracts := if parsed.Contracts? then parsed.contracts else map[];
    var accounts := Overlay(contracts);
    forall a: H160
      ensures a in accounts <==> a in contracts || IsReserved(a)
      ensures IsReserved(a) ==> accounts[a] == REVERT_STUB
      ensures !IsReserved(a) && a in contracts ==> accounts[a] == contracts[a].bytecode
    {
      DispatchByValue(a);
    }
    forall a: H160, code: seq<byte>
      ensures a in contracts && contracts[a].bytecode == code <==> Deploys(path, entry, a, code)
    {
      if path.At? && path.metadata.Entries? {
        ContractsAreSpelled(path.metadata.entries, contracts, a, code);
      }
    }
    return Some(accounts);
  }
}
