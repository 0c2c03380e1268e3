# Runtime templates: verified core

This project models the code of the two parachain runtime templates that carries logic of its own, and
proves what that code keeps to.

- `Locations`, `Reserves`: which chain holds the reserve of an asset, and which origins are trusted as
  one. The two sides are written separately in the runtime; the theorems say exactly where they agree,
  and what resolving the reserve of a reserve leads to.
- `Currencies`, `FeeDeposit`, `Credits`: currencies as locations, the fee-deposit loop, and credits
  handed to the block author.
- `CallFilter`, `Scheduler`, `ScheduleLaws`: the fuzzer's filter over nested calls and its block
  scheduler, as a run of events of the Executive. The loop with its saturating meter and its 32-bit block
  number is proved against blocks, exact sums and longest prefixes, and the whole run against a protocol and
  against a reference trace read off the input.
- `Sums`, `LedgerCheck`: the fuzzer's check of the account ledger.
- `BigEndian`, `AssetCodec`, `Precompiles`, `Genesis`, `Hex`: accounts of assets, the precompile set and
  the genesis contracts.
- `WeightFee`: the weight-to-fee coefficient.

The reserve providers, the trust filter, the fuzzer and the fee polynomial are the same in both templates;
the rows below cite the EVM template. `AssetCodec` is proved for every prefix and id width and so covers the
two that are used.

## Conventions

- Locations have unbounded `parents` and interiors of any length, which covers the 8-bit count and the eight
  junctions of the format; the limit of eight is modelled where a junction is pushed.
- The behaviour of library code is written out as it is used here: the chain part of a location (junctions
  are popped until the last names a chain), `MultiNativeAsset` and `Case`, `Perbill` (down when made from
  a fraction, to the nearest when multiplied), and the drop of an imbalance (the issuance shrinks).
- Overflow of a plain addition panics in a build with overflow checks and wraps in one without. Neither
  workspace fixes the choice, so `Overflow` is a parameter and the theorems cover both.
- The Executive is a parameter: any function of the events so far that accepts or refuses an inherent. The
  fuzzer unwraps the answer, so a refusal ends the run.
- The slot duration is a parameter with the two values of the feature `async-backing`.

## Where a stated expectation fails

- The trust filter takes bridged assets with exactly two parents, while its comment and the outbound
  provider say more than one. `Reserves.ProvidersAgreeWithFilter` gives the exact set of assets that go
  out and are not taken back.
- On Asset Hub itself, two resolutions of a reserve do not always settle; three do
  (`Reserves.TwoResolutionsSettle`, `Reserves.TwoResolutionsFailOnAssetHub`, `Reserves.ResolutionTerminates`).
- `initialize_block` takes block number 1 for the first block. In a build without overflow checks, and under
  an Executive that accepts a timestamp earlier than the last one, a block number that comes back to 1 breaks
  the run; `ScheduleLaws.RunKeepsProtocol` and `ScheduleLaws.ProtocolBudgetIsTight` give the condition and a
  shortest input. An Executive that refuses such timestamps ends the run at the first wrap instead
  (`ScheduleLaws.TimekeepersKeepProtocol`).
- Without overflow checks the ledger check accepts sums that are off by multiples of 2^128
  (`LedgerCheck.WrappingCheckMeaning`).
- `deserialize_bytecode` drops the first two bytes whatever they are, so it does not check for `0x`.
- The comment on the fee polynomial speaks of a tenth of a milliunit for the base weight; the code
  charges `MILLICENTS / 1000`. The comment on the generic asset codec describes the 128-bit layout; the code
  uses 32 bits.

## Model

| member | source | states |
|---|---|---|
| `Locations.ChainInteriorMeaning` | evm-template/runtime/src/configs/xcm_config.rs:753-787 | The chain part of a path is the cut after its last chain junction, and no other cut is. |
| `Locations.ChainInteriorIdempotent` | evm-template/runtime/src/configs/xcm_config.rs:436-436 | Taking the chain part twice is taking it once. |
| `Reserves.ReserveProviders` | evm-template/runtime/src/configs/xcm_config.rs:466-475 | The provider chain answers for every asset; `Reserves.ReserveMeaning` says what. |
| `Reserves.ReserveMeaning` | evm-template/runtime/src/configs/xcm_config.rs:374-475 | The exact answer for every para id and asset: para id 1000 for the relay token and for every asset more than one level up that starts with a global consensus, fungible or not; for every other asset its own chain, `Here` if that is this chain. |
| `Reserves.NativeReserveMeaning` | evm-template/runtime/src/configs/xcm_config.rs:426-464 | The last provider answers `Here` for an asset of this chain under either spelling, and otherwise the path of the asset up to its last chain junction, and nothing else. |
| `Reserves.TrustMeaning` | evm-template/runtime/src/configs/xcm_config.rs:202-238 | An origin is trusted for an asset if and only if it is the asset's own chain, or it is para id 1000 and the asset is fungible and is the relay token or two levels up. |
| `Reserves.ProvidersAgreeWithFilter` | evm-template/runtime/src/configs/xcm_config.rs:202-238 | For every asset and own para id, the reserve the providers choose is trusted by `Reserves` if and only if the asset is not one-way: fungible with `parents > 2` and a leading `GlobalConsensus`, or not fungible and claimed for Asset Hub. |
| `Reserves.ThreeParentsAreOneWay` | evm-template/runtime/src/configs/xcm_config.rs:404-420 | The witness: a fungible asset three levels up is sent to Asset Hub and refused from it. |
| `Reserves.TrustedOriginsExact` | evm-template/runtime/src/configs/xcm_config.rs:207-238 | The trusted origins of an asset are its own chain and, for the relay token and `parents == 2`, Asset Hub; there are exactly one or exactly two. |
| `Reserves.NativeReserveIdempotent` | evm-template/runtime/src/configs/xcm_config.rs:450-464 | `AbsoluteAndRelativeReserve` is idempotent for every para id. |
| `Reserves.NativeReserveUnclaimed` | evm-template/runtime/src/configs/xcm_config.rs:426-439 | The relative provider leaves the relay chain exactly for paths below it without a chain junction, and otherwise nothing the earlier providers claim. |
| `Reserves.AssetHubSettles` | evm-template/runtime/src/configs/xcm_config.rs:219-219 | Asset Hub is its own reserve on every other chain and `Here` on itself. |
| `Reserves.OneResolutionSettles` | evm-template/runtime/src/configs/xcm_config.rs:376-420 | One resolution gives a fixpoint if and only if the asset is not below the relay chain and not, on para id 1000, claimed for Asset Hub. |
| `Reserves.TwoResolutionsSettle` | evm-template/runtime/src/configs/xcm_config.rs:466-475 | Two resolutions give a fixpoint if and only if it is not the case that the para id is 1000 and the asset is below the relay chain. |
| `Reserves.TwoResolutionsFailOnAssetHub` | evm-template/runtime/src/configs/xcm_config.rs:428-439 | The witness: on para id 1000, a pallet of the relay chain. |
| `Reserves.ResolutionTerminates` | evm-template/runtime/src/configs/xcm_config.rs:374-475 | From the third resolution on nothing changes, for every para id and asset. |
| `Reserves.SpellingsAgree` | evm-template/runtime/src/configs/xcm_config.rs:441-464 | The relative and the absolute spelling of an own asset have the same reserve, `Here`, if and only if the path has no further chain junction. |
| `Currencies.Convert` | evm-template/runtime/src/configs/xcm_config.rs:334-352 | The native token is its pallet, every contract has a location, a foreign asset exactly when it is registered, and the registry maps that location back to it. A contract's interior is the bridge's with exactly one junction more, its address, while that is fewer than eight, and otherwise the bridge's alone. |
| `Currencies.ConversionInjective` | evm-template/runtime/src/configs/xcm_config.rs:318-352 | Over all three variants no two currencies share a location, if and only if the bridge location has room for a junction and no registered location is an own currency. |
| `Currencies.LocalPalletsNeedOnlyRoom` | evm-template/runtime/src/configs/xcm_config.rs:341-350 | For a bridge pallet of this chain and a registry of other chains' assets, room for a junction is the whole condition. |
| `Currencies.TwoVariantsInjective` | generic-template/runtime/src/configs/xcm_config.rs:237-252 | For the two variants of the generic template the conversion is injective if and only if the native token is not registered as a foreign asset. |
| `FeeDeposit.Transactor.DepositOrBurnFee` | evm-template/runtime/src/configs/xcm_config.rs:182-198 | Every asset of the fee is visited: the account of the receiver on this chain gains the sum of the successful deposits of each asset, no other balance changes, the rest is burned in order. |
| `FeeDeposit.Transactor.HandleFee` | evm-template/runtime/src/configs/xcm_config.rs:175-179 | The same, and no asset is handed back. |
| `FeeDeposit.DepositedAreTheWilling` | evm-template/runtime/src/configs/xcm_config.rs:188-197 | An asset is deposited if and only if it is fungible and its deposit can succeed at some place of the fee, and burned if and only if that fails at some place. |
| `FeeDeposit.FeeIsConserved` | evm-template/runtime/src/configs/xcm_config.rs:188-197 | For every pattern of failures deposited and burned are together the fee as a multiset. |
| `FeeDeposit.AmountsAreConserved` | evm-template/runtime/src/configs/xcm_config.rs:188-197 | For every asset the deposited and burned amounts add up to the amount in the fee. |
| `CallFilter.AcceptsIffLeavesAllowed` | evm-template/template-fuzzer/src/main.rs:217-286 | A call tree of any depth is accepted if and only if every leaf on every path through the transparent wrappers is allowed for the origin. |
| `CallFilter.OriginsCompare` | evm-template/template-fuzzer/src/main.rs:220-223 | A non-zero origin gets exactly what origin 0 gets, less everything that reaches sudo. |
| `CallFilter.StripKeepsVerdict` | evm-template/template-fuzzer/src/main.rs:224-269 | Erasing wrappers keeps the verdict; for origin 0 so does erasing sudo. |
| `CallFilter.StripIsBare` | evm-template/template-fuzzer/src/main.rs:224-269 | Erasing leaves no wrapper at any depth, and changes nothing where there is none. |
| `CallFilter.SpliceKeepsVerdict` | evm-template/template-fuzzer/src/main.rs:229-233 | Splicing nested batches into one batch of any kind keeps the verdict. |
| `CallFilter.SpliceIsFlat` | evm-template/template-fuzzer/src/main.rs:229-233 | Splicing leaves no batch in the list. |
| `Scheduler.Timing` | evm-template/template-fuzzer/src/main.rs:147-147 | The stamp is twice the slot duration for each block number, and the relay slot exactly four for each, without overflow in 64 bits. |
| `Scheduler.InitializeBlock` | evm-template/template-fuzzer/src/main.rs:144-215 | Opening a block adds a finalise unless the block is 1, an initialisation linked to the finalised header unless the block is 1, the timestamp and the validation data; or the run ends in front of the first inherent the Executive refuses. |
| `Scheduler.EnterBlock` | evm-template/template-fuzzer/src/main.rs:107-116 | A lapse closes the open block, resets the weight and opens the block 393 per lapse later, unless an inherent is refused; with overflow checks it panics exactly when the sum leaves 32 bits. |
| `Scheduler.SaturatingAccrue` | evm-template/template-fuzzer/src/main.rs:118-122 | The saturating meter reaches the limit exactly when the exact sum does. |
| `Scheduler.DispatchIfRoom` | evm-template/template-fuzzer/src/main.rs:118-132 | After charging an extrinsic the meter shows the exact load of its block, saturated, and the call is dispatched exactly when that load is below the limit. |
| `Scheduler.RunExtrinsic` | evm-template/template-fuzzer/src/main.rs:107-132 | One accepted extrinsic moves the loop variables from the specification of a run to that of the run one longer, or the run ends in an overflow or a refusal. |
| `Scheduler.ExecuteBlocks` | evm-template/template-fuzzer/src/main.rs:82-138 | For every input, Executive and treatment of overflow: the trace is empty, or the accepted extrinsics cut into blocks and filled up to the limit, then finalised; with overflow checks it stops in front of the first extrinsic whose block number does not fit, if there is one; and it is cut off in front of the first refused inherent, if there is one. `ScheduleLaws.RunMatchesReference` reads the same run off the decoded input. |
| `Scheduler.ProcessInput` | evm-template/template-fuzzer/src/main.rs:82-142 | The same, and the ledger left behind is checked exactly after a completed run and passes if and only if it is sound. |
| `Scheduler.ProcessableMeaning` | evm-template/template-fuzzer/src/main.rs:111-111 | A run gets to an extrinsic exactly when overflow wraps or the block number up to it fits 32 bits. |
| `ScheduleLaws.BlocksMeaning` | evm-template/template-fuzzer/src/main.rs:102-116 | The blocks of a run are the only way to deal out the accepted extrinsics so that each block after the first starts with its one lapse and is numbered by it. |
| `ScheduleLaws.FitMeaning` | evm-template/template-fuzzer/src/main.rs:118-122 | What of a block is dispatched is the longest prefix of what arrives whose exact ref_time stays below the limit; after one skipped call nothing follows. |
| `ScheduleLaws.DispatchesInOrder` | evm-template/template-fuzzer/src/main.rs:103-132 | What is dispatched keeps its order, and each call is signed by the account at its origin modulo the number of accounts. |
| `ScheduleLaws.RunKeepsProtocol` | evm-template/template-fuzzer/src/main.rs:97-142 | Of every run of `ExecuteBlocks`: completed with overflow checks, its trace has the shape (Init, Timestamp, ValidationData, Dispatch*, Finalize)+ with each block linked to the one before; completed without, it has that shape if and only if no lapse brings the total to a multiple of 2^32; ended by an overflow, it is inside a block; ended by a refusal, it is between the inherents of a block. |
| `ScheduleLaws.TimekeepersKeepProtocol` | evm-template/template-fuzzer/src/main.rs:172-177 | Under an Executive that refuses timestamps that are not later, every completed run has that shape, whatever overflow does. |
| `ScheduleLaws.TraceKeepsProtocol` | evm-template/template-fuzzer/src/main.rs:149-155 | A trace of accepted extrinsics has the shape if and only if no lapse brings the total to a multiple of 2^32. |
| `ScheduleLaws.WatchOpenTrace` | evm-template/template-fuzzer/src/main.rs:97-142 | Before the last finalise the trace is inside a block, or broken if block 1 is opened twice. |
| `ScheduleLaws.RunIsBlockByBlock` | evm-template/template-fuzzer/src/main.rs:138-170 | A run that does not come back to block 1 is the concatenation of its blocks, each initialised once and finalised once. |
| `ScheduleLaws.NumberIsExactWrapped` | evm-template/template-fuzzer/src/main.rs:93-111 | The block number is 1 plus 393 times the sum of the accepted lapses, in 32 bits. |
| `ScheduleLaws.NumbersAndTimesIncrease` | evm-template/template-fuzzer/src/main.rs:147-191 | The initialised block numbers, and the timestamps, strictly increase if and only if 1 plus 393 times the lapses fits 32 bits. |
| `ScheduleLaws.AdvanceBudget` | evm-template/template-fuzzer/src/main.rs:111-115 | No overflow with at most 42857 advancing extrinsics; the protocol holds with at most 16843009, whatever overflow does. |
| `ScheduleLaws.RangeBudgetIsTight` | evm-template/template-fuzzer/src/main.rs:111-111 | 42858 extrinsics of the longest lapse that pass the filters are an input whose run overflows. |
| `ScheduleLaws.ProtocolBudgetIsTight` | evm-template/template-fuzzer/src/main.rs:149-155 | The witness: 16843009 extrinsics of the longest lapse and one of lapse 1 that pass the filters are an input that, with wrapping and an Executive that refuses nothing, opens block 1 again. |
| `ScheduleLaws.EveryDispatchIsSafe` | evm-template/template-fuzzer/src/main.rs:103-132 | Over every run, however it ends, every dispatched call has only allowed leaves for the account that signs it, and is not a system call. |
| `ScheduleLaws.FiltersOnlyCrossOut` | evm-template/template-fuzzer/src/main.rs:87-106 | What each filter keeps is a subsequence of its input: every copy of each extrinsic that is no system call, or whose every leaf is allowed for the account at its origin modulo the accounts, and none of the rest. |
| `ScheduleLaws.RunMatchesReference` | evm-template/template-fuzzer/src/main.rs:82-142 | For every run, input, Executive and treatment of overflow: the trace is the one read off the decoded extrinsics, where an extrinsic counts exactly if it is no system call and every leaf is allowed for its signer, a lapse opens the block 1 plus 393 times the lapses so far, and a call is dispatched exactly when the load of its block with it is below two seconds. A completed run is that trace finalised, an overflow ends it in front of the first extrinsic whose block number does not fit 32 bits, a refusal in front of the first refused inherent; it is idle exactly when all are system calls. |
| `LedgerCheck.AddBalance` | evm-template/template-fuzzer/src/main.rs:295-296 | A 128-bit addition panics exactly on overflow, or wraps. |
| `LedgerCheck.LargestLock` | evm-template/template-fuzzer/src/main.rs:297-298 | The largest lock, zero without locks. |
| `LedgerCheck.SumOfHolds` | evm-template/template-fuzzer/src/main.rs:300-300 | The sum of the holds, or a panic where it does not fit. |
| `LedgerCheck.CheckAccount` | evm-template/template-fuzzer/src/main.rs:291-306 | The assertions on one account fail only if the account is unsound or the balances do not fit 128 bits. |
| `LedgerCheck.CheckInvariants` | evm-template/template-fuzzer/src/main.rs:288-310 | The assertions pass if and only if the ledger is sound, for every iteration order; so on a sound ledger no intermediate sum overflows. A failure names a fault the ledger has. |
| `LedgerCheck.WrappingCheckMeaning` | evm-template/template-fuzzer/src/main.rs:288-310 | A ledger is sound if and only if the check without overflow checks passes and no sum overflows. |
| `LedgerCheck.WrappingCheckIsFooled` | evm-template/template-fuzzer/src/main.rs:308-309 | The witness: two accounts holding 2^127 each pass as an issuance of zero without overflow checks. |
| `Sums.SeqSumIsSetSum` | evm-template/template-fuzzer/src/main.rs:291-291 | Every order of iteration over an unordered map gives the same sum. |
| `AssetCodec.AssetIdToAccount` | evm-template/runtime/src/configs/asset_config.rs:198-203 | The buffer filled in place is the prefix followed by bytes whose big-endian value is the id. |
| `BigEndian.FromBytesIsPositional` | evm-template/runtime/src/configs/asset_config.rs:191-201 | The value of a byte string counts each byte 256 times as much as the one after it. |
| `AssetCodec.AccountToAssetId` | evm-template/runtime/src/configs/asset_config.rs:184-195 | The id is read back from the account, or nothing under another prefix. |
| `AssetCodec.LayoutsFitTemplates` | generic-template/runtime/src/configs/asset_config.rs:93-120 | The 28-byte prefix leaves exactly the 32-bit ids, the 4-byte prefix exactly the 128-bit ids. |
| `AssetCodec.DecodeAfterEncode` | evm-template/runtime/src/configs/asset_config.rs:177-203 | Decoding an encoded id gives it back under the marker and nothing under any other prefix, at every width. |
| `AssetCodec.EncodeAfterDecode` | generic-template/runtime/src/configs/asset_config.rs:96-120 | An account decodes to an id if and only if it is that id's account; it decodes at all if and only if every byte of its prefix is 255. |
| `AssetCodec.AccountsAreDistinct` | evm-template/runtime/src/configs/asset_config.rs:198-203 | Different ids have different accounts. |
| `AssetCodec.NumberedAddressIsNoAsset` | evm-template/runtime/src/precompiles.rs:53-55 | No address made from a 64-bit number decodes to an asset. |
| `AssetCodec.NumberedAddressMeaning` | evm-template/runtime/src/precompiles.rs:53-55 | An address is the one made from a 64-bit number if and only if its twenty bytes have that value. |
| `AssetCodec.NumberedAddressesAreDistinct` | evm-template/runtime/src/precompiles.rs:53-55 | Different numbers give different addresses. |
| `AssetCodec.RootOperatorIsLargestAsset` | evm-template/runtime/src/configs/mod.rs:206-208 | The root operator account is the account of the largest asset id and of no other. |
| `Precompiles.DispatchAgreesWithReport` | evm-template/runtime/src/precompiles.rs:30-50 | `is_precompile` holds if and only if `execute` returns a result, on all 160-bit addresses, and no precompile runs at two addresses. |
| `Precompiles.NoArmIsShadowed` | evm-template/runtime/src/precompiles.rs:22-43 | Each listed address runs the precompile at its place; no arm is shadowed. |
| `Precompiles.DispatchByValue` | evm-template/runtime/src/precompiles.rs:22-55 | Which precompile runs at an address, and whether it is reported, is decided by the value of its twenty bytes: 1 to 5, 1024 and 1025 run one, every other value none. |
| `Genesis.ParseContracts` | evm-template/node/src/contracts/mod.rs:60-96 | The loaded map holds, for each address, the contract of the last entry whose file is an artefact, of either style, with a text that spells bytecode, and no others; errors of the metadata are returned; loading crashes exactly when the text of some artefact is shorter than two bytes or would be cut inside a character. |
| `Genesis.ReadMeaning` | evm-template/node/src/contracts/mod.rs:82-104 | A file is loaded as a contract if and only if it is an artefact of that style whose text spells that bytecode; it crashes the load if and only if its text cannot be cut. |
| `Genesis.GenesisAccounts` | evm-template/node/src/chain_spec.rs:187-219 | Every address of value 1 to 5, 1024 or 1025 has the revert stub; every other address has exactly the code spelled in base 16 by the artefact deployed for it, or no account; there is no genesis state exactly when loading crashes. |
| `Hex.BytecodeMeaning` | evm-template/node/src/contracts/mod.rs:98-104 | A text decodes to given bytes if and only if what follows its first two bytes is their base-16 form in any mixture of cases. |
| `Hex.RejectedMeaning` | evm-template/node/src/contracts/mod.rs:102-103 | A text that can be cut is rejected if and only if the rest has an odd length or a byte that is not a hexadecimal digit. |
| `Hex.PanickedMeaning` | evm-template/node/src/contracts/mod.rs:102-103 | Decoding panics if and only if the text is shorter than two bytes or its third byte is inside a character. |
| `Hex.DecodeDigitsMeaning` | evm-template/node/src/contracts/mod.rs:103-103 | The digits decode to given bytes if and only if they are their base-16 form up to case. |
| `Hex.TestVector` | evm-template/node/src/contracts/mod.rs:103-103 | The base-16 form agrees with a test vector of section 10 of RFC 4648. |
| `WeightFee.PortionIsNearest` | evm-template/runtime/src/lib.rs:144-149 | Parts per billion of a weight, computed without overflow, are rounded to the nearest whole. |
| `WeightFee.FeeIsClose` | evm-template/runtime/src/lib.rs:139-150 | For every coefficient p / q and weight w the fee is less than 1/2 above p * w / q and at most 1/2 + w / 10^9 below it. |
| `WeightFee.FeeMonotone` | evm-template/runtime/src/lib.rs:144-149 | The fee is monotone in the weight. |
| `WeightFee.EvaluateIsCappedFee` | evm-template/runtime/src/lib.rs:139-150 | The saturating evaluation is the exact fee, capped once at the largest balance. |
| `WeightFee.NothingSaturates` | evm-template/runtime/src/lib.rs:148-148 | No 128-bit saturation is reachable for 64-bit weights while the integer part fits 64 bits. |
| `WeightFee.TemplateFee` | evm-template/runtime/src/lib.rs:142-149 | With the constants the fraction is exactly 1/125, the fee is within 62/125 of the exact one, and the base extrinsic weight of 125000000 costs exactly 1000000, `MILLICENTS / (P_FACTOR * Q_FACTOR)`. |
| `Credits.AssetsToBlockAuthor.HandleCredit` | evm-template/runtime/src/configs/mod.rs:216-222 | The balance of the author in the credit's asset grows by the amount exactly when there is an author and the account can take it, and no other balance changes; the issuance is unchanged then, and otherwise smaller by the amount in that asset alone; the credits are the others in order. |
| `Credits.IssuanceCoversCredits` | evm-template/runtime/src/configs/mod.rs:216-222 | While issuance equals balances plus credits, the issuance covers every credit, so a dropped credit shrinks it by its whole amount. |
| `Credits.StepConserves` | evm-template/runtime/src/configs/mod.rs:210-223 | Each issue, withdrawal and handled credit keeps issuance equal to balances plus outstanding credit, for every asset. |
| `Credits.RunConserves` | evm-template/runtime/src/configs/mod.rs:210-223 | So does every run; once all credits are handled the issuance is the sum of the balances. |

## Left out

- Service wiring, command line, RPC, networking and chain specifications beyond the contracts overlay: calls into libraries.
- Generated weights, genesis presets and key derivation: constants and cryptography.
- The configuration traits and the macros that expand them: type lists without logic of their own.
- `ProxyType::filter`, `AssetFeesFilter`, `ParachainMinFee`, `Transactors` and the origin conversions: single matches that would only add easy members.
- Hashing an `AssetType` into an asset id: a truncated hash, not injective, and nothing here depends on it.
- Registering and destroying foreign assets: the behaviour belongs to the assets pallet.
- Decoding of the fuzzer's input: the list of decoded extrinsics is arbitrary, and the weight of a call is carried with the extrinsic instead of computed from it.
- Wall-clock assertions, printing, `integrity_test` and `try_state` in the fuzzer; initialising, finalising and dispatching are assumed not to panic.
- The hash of a header: whether a block carries the header finalised before it is a flag.
- The feature `tanssi`: it removes the arm for `set_desired_candidates` from the filter; the model has the arm.
- Calls nested inside calls the filter does not name (for example `sudo_as` or a proxied call): the filter does not look into them, and neither does the model.
- Opening contract files and their JSON: each file is missing, no artefact, or an artefact with its bytecode as text, and the bytecode of the default contract is a parameter.
- The reserve providers of the generic template are not repeated: they are the same functions.
- Scheduler.ProcessInput: the loop body is split into methods of its own, and the storage that the dispatched calls leave behind is arbitrary.
- FeeDeposit.Transactor.DepositOrBurnFee: the reasons a deposit can fail, among them overflow of a balance, are one arbitrary flag per asset.
- Credits.AssetsToBlockAuthor.HandleCredit: the reasons an account cannot take a credit are one arbitrary flag, and balances are unbounded.
