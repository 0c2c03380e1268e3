/** The fuzzer's block scheduler: from a list of decoded extrinsics to a run of the Executive. */
module Scheduler {
  import opened Common
  import opened CallFilter
  import LedgerCheck

  datatype Weight = Weight(refTime: u64, proofSize: u64)

  /** A decoded extrinsic with the weight its dispatch info declares. */
  datatype Extrinsic = Extrinsic(lapse: u8, origin: u8, call: Call, weight: Weight)

  /** What the Executive is asked to do, in order. A block is `linked` when its parent hash and the
      parent head in its validation data are those of the header that was finalised just before. */
  datatype Event =
    | Initialize(number: u32, auraSlot: u64, linked: bool)
    | SetTimestamp(now: u64)
    | SetValidationData(relayParent: u32, relaySlot: u64, linked: bool)
    | Dispatch(who: Account, call: Call)
    | Finalize

  /** Whether the Executive accepts an inherent after the events so far. The fuzzer unwraps the answer
      and panics on a refusal. */
  type Executive = (seq<Event>, Event) -> bool

  datatype Outcome = Idle | Completed(block: u32) | BlockNumberOverflow | InherentRefused

  /** The slot duration of a build without and with asynchronous backing. */
  datatype SlotDuration = Standard | AsyncBacking {
    function Millis(): nat { if Standard? then 12000 else 6000 }

    /** The time at which a block is stamped: two slots for each block number. */
    function Stamp(number: u32): u64 { if Standard? then 24000 * number else 12000 * number }
  }

  const WEIGHT_REF_TIME_PER_SECOND: nat := 1_000_000_000_000
  const BLOCK_LIMIT: nat := 2 * WEIGHT_REF_TIME_PER_SECOND

  /** How many blocks a lapse skips: nearly a week for the longest one. */
  function LapseLength(lapse: u8): u32 { 393 * lapse }

  // ----- The specification: accepted extrinsics, cut into blocks, each filled up to its limit -----

  /** The extrinsics that are not system calls. */
  function Kept(decoded: seq<Extrinsic>): seq<Extrinsic> {
    if decoded == [] then []
    else
      var earlier := Kept(decoded[..|decoded| - 1]);
      if Last(decoded).call.System? then earlier else earlier + [Last(decoded)]
  }

  /** The index of the account that signs an extrinsic. */
  function OriginNo(x: Extrinsic, accounts: seq<Account>): (n: nat)
    requires accounts != []
    ensures n < |accounts|
  {
    x.origin % |accounts|
  }

  predicate Passes(x: Extrinsic, accounts: seq<Account>)
    requires accounts != []
  {
    Accepts(x.call, OriginNo(x, accounts))
  }

  function Accepted(xs: seq<Extrinsic>, accounts: seq<Account>): seq<Extrinsic>
    requires accounts != []
  {
    if xs == [] then []
    else
      var earlier := Accepted(xs[..|xs| - 1], accounts);
      if Passes(Last(xs), accounts) then earlier + [Last(xs)] else earlier
  }

  /** Blocks in the order they are opened, each with the extrinsics that arrive in it. */
  datatype Schedule = Empty | Then(earlier: Schedule, number: u32, run: seq<Extrinsic>)

  /** An extrinsic with a lapse opens a block that many lapses later; any other joins the open one. */
  function Arrive(s: Schedule, x: Extrinsic): Schedule
    requires s.Then?
  {
    if x.lapse > 0 then Then(s, WrappingAdd(s.number, LapseLength(x.lapse)), [x])
    else Then(s.earlier, s.number, s.run + [x])
  }

  function Blocks(xs: seq<Extrinsic>): (s: Schedule)
    ensures s.Then?
  {
    if xs == [] then Then(Empty, 1, []) else Arrive(Blocks(xs[..|xs| - 1]), Last(xs))
  }

  /** The exact computation time of a run of extrinsics. */
  function RefTime(run: seq<Extrinsic>): nat {
    if run == [] then 0 else RefTime(run[..|run| - 1]) + Last(run).weight.refTime
  }

  /** The extrinsics at which the exact computation time is still below the limit. */
  function Fit(run: seq<Extrinsic>): seq<Extrinsic> {
    if run == [] then []
    else
      var sent := Fit(run[..|run| - 1]);
      if RefTime(run) < BLOCK_LIMIT then sent + [Last(run)] else sent
  }

  function DispatchOf(x: Extrinsic, accounts: seq<Account>): Event
    requires accounts != []
  {
    Dispatch(accounts[OriginNo(x, accounts)], x.call)
  }

  function Dispatches(run: seq<Extrinsic>, accounts: seq<Account>): seq<Event>
    requires accounts != []
  {
    if run == [] then []
    else Dispatches(run[..|run| - 1], accounts) + [DispatchOf(Last(run), accounts)]
  }

  /** What a block starts with. Only the block numbered 1 has no parent. */
  function Inherents(number: u32, slot: SlotDuration): seq<Event> {
    [Initialize(number, number, number != 1),
     SetTimestamp(slot.Stamp(number)),
     SetValidationData(number, 4 * number, number != 1)]
  }

  /** The events that open a block. They close the one before it unless the new one is numbered 1. */
  function OpeningEvents(number: u32, slot: SlotDuration): seq<Event> {
    if number == 1 then Inherents(number, slot) else [Finalize] + Inherents(number, slot)
  }

  /** The events a block contributes while it is open. */
  function Segment(number: u32, run: seq<Extrinsic>, accounts: seq<Account>, slot: SlotDuration): seq<Event>
    requires accounts != []
  {
    OpeningEvents(number, slot) + Dispatches(Fit(run), accounts)
  }

  /** The events of a run whose last block is still open. */
  function OpenTrace(s: Schedule, accounts: seq<Account>, slot: SlotDuration): seq<Event>
    requires accounts != []
  {
    match s
    case Empty => []
    case Then(earlier, number, run) =>
      OpenTrace(earlier, accounts, slot) + Segment(number, run, accounts, slot)
  }

  function Saturated(n: nat): u64 { if n < U64_LIMIT then n else U64_LIMIT - 1 }

  function Lapses(xs: seq<Extrinsic>): nat {
    if xs == [] then 0 else Lapses(xs[..|xs| - 1]) + Last(xs).lapse
  }

  /** The number of the open block, were block numbers unbounded. */
  function ExactNumber(xs: seq<Extrinsic>): nat { 1 + 393 * Lapses(xs) }

  /** The extrinsics a run gets to: all of them, or, where overflow panics, those in front of the first
      whose block number is too large. */
  function Processable(xs: seq<Extrinsic>, overflow: Overflow): seq<Extrinsic> {
    if xs == [] || overflow.Wrapping? || ExactNumber(xs) < U32_LIMIT then xs
    else Processable(xs[..|xs| - 1], overflow)
  }

  /** The events of a run if every inherent is accepted. */
  function Intended(xs: seq<Extrinsic>, accounts: seq<Account>, slot: SlotDuration, overflow: Overflow): seq<Event>
    requires accounts != []
  {
    var done := Processable(xs, overflow);
    if done == xs then OpenTrace(Blocks(xs), accounts, slot) + [Finalize]
    else OpenTrace(Blocks(done), accounts, slot)
  }

  predicate IsInherent(e: Event) { e.SetTimestamp? || e.SetValidationData? }

  predicate AllAdmitted(trace: seq<Event>, admits: Executive) {
    trace == [] ||
    var earlier := trace[..|trace| - 1];
    AllAdmitted(earlier, admits) && (IsInherent(Last(trace)) ==> admits(earlier, Last(trace)))
  }

  /** `trace` is `intended` cut off in front of its first refused inherent. */
  ghost predicate RefusedIn(trace: seq<Event>, intended: seq<Event>, admits: Executive) {
    && trace < intended
    && AllAdmitted(trace, admits)
    && IsInherent(intended[|trace|])
    && !admits(trace, intended[|trace|])
  }

  /** What a run does with the extrinsics it accepts: the intended events, cut off at the first refusal. */
  ghost predicate IsRunOf(xs: seq<Extrinsic>, accounts: seq<Account>, slot: SlotDuration, overflow: Overflow,
                          admits: Executive, trace: seq<Event>, outcome: Outcome)
    requires accounts != []
  {
    var intended := Intended(xs, accounts, slot, overflow);
    if !AllAdmitted(intended, admits) then outcome == InherentRefused && RefusedIn(trace, intended, admits)
    else trace == intended
         && outcome == if overflow.Checked? && ExactNumber(xs) >= U32_LIMIT then BlockNumberOverflow
                       else Completed(Blocks(xs).number)
  }

  /** What a run does, for every input, Executive and treatment of overflow. */
  ghost predicate IsRun(accounts: seq<Account>, decoded: seq<Extrinsic>, slot: SlotDuration, overflow: Overflow,
                        admits: Executive, trace: seq<Event>, outcome: Outcome)
    requires Kept(decoded) != [] ==> accounts != []
  {
    if Kept(decoded) == [] then trace == [] && outcome == Idle
    else IsRunOf(Accepted(Kept(decoded), accounts), accounts, slot, overflow, admits, trace, outcome)
  }

  // ----- The code -----

  lemma AdmittedSnoc(trace: seq<Event>, e: Event, admits: Executive)
    ensures AllAdmitted(trace + [e], admits) <==>
            AllAdmitted(trace, admits) && (IsInherent(e) ==> admits(trace, e))
  {
    assert (trace + [e])[..|trace|] == trace;
  }

  /** Applies an inherent and unwraps the answer. */
  method ApplyInherent(e: Event, admits: Executive, before: seq<Event>) returns (refused: bool, trace: seq<Event>)
    requires AllAdmitted(before, admits) && IsInherent(e)
    ensures refused ==> trace == before && !admits(before, e)
    ensures !refused ==> trace == before + [e] && AllAdmitted(trace, admits)
  {
    if !admits(before, e) {
      return true, before;
    }
    AdmittedSnoc(before, e, admits);
    return false, before + [e];
  }

  /** The time and relay slot of a block, computed in 64 bits. */
  method Timing(block: u32, slot: SlotDuration) returns (now: u64, relaySlot: u64)
    ensures now == slot.Stamp(block) == 2 * slot.Millis() * block && relaySlot == 4 * block
  {
    now := block * slot.Millis() * 2;
    var twice: u64 := 2 * now;
    relaySlot := twice / slot.Millis();
  }

  /** The events up to the initialisation of a block. */
  function Started(block: u32, before: seq<Event>): seq<Event> {
    (if block != 1 then before + [Finalize] else before) + [Initialize(block, block, block != 1)]
  }

  /** Finalises the block before, if there is one, and initialises the new block. */
  method StartBlock(block: u32, admits: Executive, before: seq<Event>) returns (trace: seq<Event>)
    requires AllAdmitted(before, admits)
    ensures trace == Started(block, before) && AllAdmitted(trace, admits)
  {
    trace := before;
    if block != 1 {
      AdmittedSnoc(trace, Finalize, admits);
      trace := trace + [Finalize];
    }
    AdmittedSnoc(trace, Initialize(block, block, block != 1), admits);
    trace := trace + [Initialize(block, block, block != 1)];
  }

  lemma RefusalOfTwo(trace: seq<Event>, first: Event, second: Event, admits: Executive)
    requires AllAdmitted(trace, admits) && IsInherent(first) && IsInherent(second)
    ensures !admits(trace, first) ==> RefusedIn(trace, (trace + [first]) + [second], admits)
    ensures AllAdmitted(trace + [first], admits) && !admits(trace + [first], second) ==>
              RefusedIn(trace + [first], (trace + [first]) + [second], admits)
  {
  }

  lemma OpeningEventsInOrder(block: u32, slot: SlotDuration, before: seq<Event>)
    ensures before + OpeningEvents(block, slot)
            == (Started(block, before) + [SetTimestamp(slot.Stamp(block))])
               + [SetValidationData(block, 4 * block, block != 1)]
  {
  }

  /** Opens a block after `before`, unless an inherent is refused. */
  method InitializeBlock(block: u32, slot: SlotDuration, admits: Executive, before: seq<Event>)
    returns (refused: bool, trace: seq<Event>)
    requires AllAdmitted(before, admits)
    ensures !refused ==> trace == before + OpeningEvents(block, slot) && AllAdmitted(trace, admits)
    ensures refused ==> RefusedIn(trace, before + OpeningEvents(block, slot), admits)
  {
    var currentTimestamp, relaySlot := Timing(block, slot);
    var timestamp := SetTimestamp(currentTimestamp);
    var data := SetValidationData(block, relaySlot, block != 1);
    OpeningEventsInOrder(block, slot, before);
    trace := StartBlock(block, admits, before);
    RefusalOfTwo(trace, timestamp, data, admits);
    refused, trace := ApplyInherent(timestamp, admits, trace);
    if refused {
      return;
    }
    refused, trace := ApplyInherent(data, admits, trace);
  }

  datatype Status = Fine | Overflowed | Refused

  /** The number of the next block; `None` where the addition panics. */
  method AdvanceNumber(block: u32, lapse: u8, overflow: Overflow) returns (next: Option<u32>)
    ensures next.None? <==> overflow.Checked? && block + LapseLength(lapse) >= U32_LIMIT
    ensures next.Some? ==> next.value == WrappingAdd(block, LapseLength(lapse))
  {
    var sum := block + lapse * 393;
    if sum < U32_LIMIT {
      return Some(sum);
    }
    return if overflow.Checked? then None else Some(sum - U32_LIMIT);
  }

  /** The events up to the dispatch of an extrinsic that arrives. */
  function Reaching(s: Schedule, x: Extrinsic, accounts: seq<Account>, slot: SlotDuration): seq<Event>
    requires accounts != [] && s.Then?
  {
    if x.lapse > 0
    then OpenTrace(s, accounts, slot) + OpeningEvents(Arrive(s, x).number, slot)
    else OpenTrace(s, accounts, slot)
  }

  /** An extrinsic with a lapse closes the open block and opens its own. */
  method EnterBlock(x: Extrinsic, accounts: seq<Account>, slot: SlotDuration, overflow: Overflow, admits: Executive,
                    block: u32, weight: Weight, trace: seq<Event>, ghost s: Schedule)
    returns (status: Status, block': u32, weight': Weight, trace': seq<Event>)
    requires accounts != [] && s.Then? && block == s.number && trace == OpenTrace(s, accounts, slot)
    requires AllAdmitted(trace, admits)
    ensures status == Overflowed <==> overflow.Checked? && block + LapseLength(x.lapse) >= U32_LIMIT
    ensures status == Overflowed ==> trace' == trace
    ensures status == Refused ==> RefusedIn(trace', Reaching(s, x, accounts, slot), admits)
    ensures status == Fine ==>
              && block' == Arrive(s, x).number
              && weight' == (if x.lapse > 0 then Weight(0, 0) else weight)
              && trace' == Reaching(s, x, accounts, slot)
              && AllAdmitted(trace', admits)
  {
    block', weight', trace' := block, weight, trace;
    if x.lapse == 0 {
      return Fine, block, weight, trace;
    }
    var next := AdvanceNumber(block, x.lapse, overflow);
    if next.None? {
      return Overflowed, block, weight, trace;
    }
    block' := next.value;
    var refused;
    refused, trace' := InitializeBlock(block', slot, admits, trace);
    return if refused then Refused else Fine, block', Weight(0, 0), trace';
  }

  /** Adds to the block weight, each part stopping at the largest value. `load` is the exact sum. */
  method SaturatingAccrue(weight: Weight, more: Weight, ghost load: nat) returns (sum: Weight)
    requires weight.refTime == Saturated(load)
    ensures sum.refTime == Saturated(load + more.refTime)
    ensures sum.refTime >= BLOCK_LIMIT <==> load + more.refTime >= BLOCK_LIMIT
    ensures sum.proofSize == Saturated(weight.proofSize + more.proofSize)
  {
    var refTime := if weight.refTime + more.refTime < U64_LIMIT then weight.refTime + more.refTime else U64_LIMIT - 1;
    var proofSize :=
      if weight.proofSize + more.proofSize < U64_LIMIT then weight.proofSize + more.proofSize else U64_LIMIT - 1;
    sum := Weight(refTime, proofSize);
  }

  /** What the loop variables hold once `xs` have been accepted. */
  ghost predicate InStep(xs: seq<Extrinsic>, accounts: seq<Account>, slot: SlotDuration, overflow: Overflow,
                         admits: Executive, block: u32, weight: Weight, trace: seq<Event>)
    requires accounts != []
  {
    && block == Blocks(xs).number
    && (overflow.Checked? ==> block == ExactNumber(xs))
    && weight.refTime == Saturated(RefTime(Blocks(xs).run))
    && trace == OpenTrace(Blocks(xs), accounts, slot)
    && AllAdmitted(trace, admits)
  }

  lemma Reassociate<T>(a: seq<T>, b: seq<T>, t: T)
    ensures a + (b + [t]) == (a + b) + [t]
  {
  }

  lemma RunSnoc(run: seq<Extrinsic>, x: Extrinsic, accounts: seq<Account>)
    requires accounts != []
    ensures RefTime(run + [x]) == RefTime(run) + x.weight.refTime
    ensures Dispatches(Fit(run + [x]), accounts)
            == if RefTime(run + [x]) < BLOCK_LIMIT
               then Dispatches(Fit(run), accounts) + [DispatchOf(x, accounts)]
               else Dispatches(Fit(run), accounts)
  {
    assert (run + [x])[..|run|] == run;
  }

  /** One more extrinsic in a block: what it costs, and whether it is dispatched. */
  lemma SegmentSnoc(number: u32, run: seq<Extrinsic>, x: Extrinsic, accounts: seq<Account>, slot: SlotDuration)
    requires accounts != []
    ensures RefTime(run + [x]) == RefTime(run) + x.weight.refTime
    ensures Segment(number, run + [x], accounts, slot)
            == if RefTime(run + [x]) < BLOCK_LIMIT
               then Segment(number, run, accounts, slot) + [DispatchOf(x, accounts)]
               else Segment(number, run, accounts, slot)
    ensures Segment(number, [], accounts, slot) == OpeningEvents(number, slot)
  {
    RunSnoc(run, x, accounts);
    assert Dispatches(Fit([]), accounts) == [];
    Reassociate(OpeningEvents(number, slot), Dispatches(Fit(run), accounts), DispatchOf(x, accounts));
  }

  /** The load of the block an extrinsic arrives in, without it. */
  function LoadBefore(s: Schedule, x: Extrinsic): nat
    requires s.Then?
  {
    if x.lapse > 0 then 0 else RefTime(s.run)
  }

  /** One more accepted extrinsic: the load of its block, and the events it adds. */
  lemma ExtrinsicArrives(s: Schedule, x: Extrinsic, accounts: seq<Account>, slot: SlotDuration)
    requires accounts != [] && s.Then?
    ensures RefTime(Arrive(s, x).run) == LoadBefore(s, x) + x.weight.refTime
    ensures OpenTrace(Arrive(s, x), accounts, slot)
            == if RefTime(Arrive(s, x).run) < BLOCK_LIMIT
               then Reaching(s, x, accounts, slot) + [DispatchOf(x, accounts)]
               else Reaching(s, x, accounts, slot)
  {
    var now, run := Arrive(s, x), if x.lapse > 0 then [] else s.run;
    assert now.run == run + [x];
    SegmentSnoc(now.number, run, x, accounts, slot);
    Reassociate(OpenTrace(now.earlier, accounts, slot), Segment(now.number, run, accounts, slot), DispatchOf(x, accounts));
  }

  method DispatchOrSkip(x: Extrinsic, accounts: seq<Account>, admits: Executive, room: bool, trace: seq<Event>)
    returns (trace': seq<Event>)
    requires accounts != [] && AllAdmitted(trace, admits)
    ensures trace' == if room then trace + [DispatchOf(x, accounts)] else trace
    ensures AllAdmitted(trace', admits)
  {
    if !room {
      return trace;
    }
    var origin := accounts[OriginNo(x, accounts)];
    AdmittedSnoc(trace, DispatchOf(x, accounts), admits);
    return trace + [Dispatch(origin, x.call)];
  }

  /** Charges an extrinsic to its block and dispatches it if the block has room. */
  method DispatchIfRoom(x: Extrinsic, accounts: seq<Account>, slot: SlotDuration, admits: Executive,
                        weight: Weight, trace: seq<Event>, ghost s: Schedule)
    returns (weight': Weight, trace': seq<Event>)
    requires accounts != [] && s.Then? && trace == Reaching(s, x, accounts, slot) && AllAdmitted(trace, admits)
    requires weight.refTime == Saturated(LoadBefore(s, x))
    ensures weight'.refTime == Saturated(RefTime(Arrive(s, x).run))
    ensures trace' == OpenTrace(Arrive(s, x), accounts, slot) && AllAdmitted(trace', admits)
  {
    weight' := SaturatingAccrue(weight, x.weight, LoadBefore(s, x));
    trace' := DispatchOrSkip(x, accounts, admits, weight'.refTime < BLOCK_LIMIT, trace);
    ExtrinsicArrives(s, x, accounts, slot);
  }

  lemma ReachingIsPrefix(s: Schedule, x: Extrinsic, accounts: seq<Account>, slot: SlotDuration)
    requires accounts != [] && s.Then?
    ensures Reaching(s, x, accounts, slot) <= OpenTrace(Arrive(s, x), accounts, slot)
  {
    ExtrinsicArrives(s, x, accounts, slot);
  }

  lemma BlocksSnoc(xs: seq<Extrinsic>, x: Extrinsic)
    ensures Blocks(xs + [x]) == Arrive(Blocks(xs), x)
    ensures ExactNumber(xs + [x]) == ExactNumber(xs) + LapseLength(x.lapse)
  {
    assert (xs + [x])[..|xs|] == xs;
  }

  /** The loop body for an extrinsic that passes the filter. */
  method RunExtrinsic(x: Extrinsic, accounts: seq<Account>, slot: SlotDuration, overflow: Overflow, admits: Executive,
                      block: u32, weight: Weight, trace: seq<Event>, ghost xs: seq<Extrinsic>)
    returns (status: Status, block': u32, weight': Weight, trace': seq<Event>)
    requires accounts != [] && InStep(xs, accounts, slot, overflow, admits, block, weight, trace)
    ensures status == Overflowed <==> overflow.Checked? && ExactNumber(xs + [x]) >= U32_LIMIT
    ensures status == Fine ==> InStep(xs + [x], accounts, slot, overflow, admits, block', weight', trace')
    ensures status == Overflowed ==> trace' == trace
    ensures status == Refused ==> RefusedIn(trace', OpenTrace(Blocks(xs + [x]), accounts, slot), admits)
  {
    ghost var s := Blocks(xs);
    BlocksSnoc(xs, x);
    status, block', weight', trace' := EnterBlock(x, accounts, slot, overflow, admits, block, weight, trace, s);
    if status == Refused {
      ReachingIsPrefix(s, x, accounts, slot);
      return;
    }
    if status == Overflowed {
      return;
    }
    weight', trace' := DispatchIfRoom(x, accounts, slot, admits, weight', trace', s);
  }

  lemma {:induction false} LapsesGrow(xs: seq<Extrinsic>, k: nat)
    requires k <= |xs|
    ensures Lapses(xs[..k]) <= Lapses(xs)
  {
    if k < |xs| {
      LapsesGrow(xs[..|xs| - 1], k);
      assert xs[..|xs| - 1][..k] == xs[..k];
    } else {
      assert xs[..k] == xs;
    }
  }

  /** A run gets exactly as far as its block numbers fit. */
  lemma {:induction false} ProcessableMeaning(xs: seq<Extrinsic>, overflow: Overflow, k: nat)
    requires k <= |xs|
    ensures Processable(xs, overflow) <= xs
    ensures Processable(xs, overflow) == xs <==> overflow.Wrapping? || ExactNumber(xs) < U32_LIMIT
    ensures k <= |Processable(xs, overflow)| <==> overflow.Wrapping? || ExactNumber(xs[..k]) < U32_LIMIT
  {
    if xs == [] || overflow.Wrapping? || ExactNumber(xs) < U32_LIMIT {
      LapsesGrow(xs, k);
    } else {
      var front := xs[..|xs| - 1];
      if k < |xs| {
        ProcessableMeaning(front, overflow, k);
        assert front[..k] == xs[..k];
      } else {
        ProcessableMeaning(front, overflow, 0);
        assert xs[..k] == xs;
      }
    }
  }

  /** The run stops in front of `x`. */
  lemma StopsShort(all: seq<Extrinsic>, done: seq<Extrinsic>, x: Extrinsic)
    requires done + [x] <= all
    requires ExactNumber(done) < U32_LIMIT <= ExactNumber(done + [x])
    ensures Processable(all, Checked) == done && done != all && ExactNumber(all) >= U32_LIMIT
  {
    var n := |done|;
    assert all[..n] == done && all[..n + 1] == done + [x];
    ProcessableMeaning(all, Checked, n);
    ProcessableMeaning(all, Checked, n + 1);
  }

  lemma OverflowEndsRun(all: seq<Extrinsic>, done: seq<Extrinsic>, x: Extrinsic, accounts: seq<Account>,
                        slot: SlotDuration, admits: Executive, trace: seq<Event>)
    requires accounts != [] && done + [x] <= all
    requires ExactNumber(done) < U32_LIMIT <= ExactNumber(done + [x])
    requires trace == OpenTrace(Blocks(done), accounts, slot) && AllAdmitted(trace, admits)
    ensures IsRunOf(all, accounts, slot, Checked, admits, trace, BlockNumberOverflow)
  {
    StopsShort(all, done, x);
  }

  lemma LastBlockEndsRun(all: seq<Extrinsic>, accounts: seq<Account>, slot: SlotDuration, overflow: Overflow,
                         admits: Executive, block: u32, weight: Weight, trace: seq<Event>)
    requires accounts != [] && InStep(all, accounts, slot, overflow, admits, block, weight, trace)
    ensures IsRunOf(all, accounts, slot, overflow, admits, trace + [Finalize], Completed(block))
  {
    AdmittedSnoc(trace, Finalize, admits);
    ProcessableMeaning(all, overflow, |all|);
  }

  /** A run only adds to its trace. */
  lemma {:induction false} TraceGrows(xs: seq<Extrinsic>, k: nat, accounts: seq<Account>, slot: SlotDuration)
    requires accounts != [] && k <= |xs|
    ensures OpenTrace(Blocks(xs[..k]), accounts, slot) <= OpenTrace(Blocks(xs), accounts, slot)
    decreases |xs|
  {
    if k == |xs| {
      assert xs[..k] == xs;
    } else {
      var front := xs[..|xs| - 1];
      TraceGrows(front, k, accounts, slot);
      assert front[..k] == xs[..k];
      ExtrinsicArrives(Blocks(front), Last(xs), accounts, slot);
    }
  }

  lemma {:induction false} RefusedIsNotAdmitted(trace: seq<Event>, intended: seq<Event>, admits: Executive)
    requires RefusedIn(trace, intended, admits)
    ensures !AllAdmitted(intended, admits)
    decreases |intended|
  {
    var earlier := intended[..|intended| - 1];
    if trace == earlier {
      assert Last(intended) == intended[|trace|];
    } else {
      RefusedIsNotAdmitted(trace, earlier, admits);
    }
  }

  /** A refusal in the trace of a part of a run is one in the whole run. */
  lemma RefusalEndsRun(all: seq<Extrinsic>, part: seq<Extrinsic>, accounts: seq<Account>, slot: SlotDuration,
                      overflow: Overflow, admits: Executive, trace: seq<Event>)
    requires accounts != [] && part <= all
    requires overflow.Checked? ==> ExactNumber(part) < U32_LIMIT
    requires RefusedIn(trace, OpenTrace(Blocks(part), accounts, slot), admits)
    ensures IsRunOf(all, accounts, slot, overflow, admits, trace, InherentRefused)
  {
    var done, intended := Processable(all, overflow), Intended(all, accounts, slot, overflow);
    assert all[..|part|] == part;
    ProcessableMeaning(all, overflow, |part|);
    assert done[..|part|] == part;
    TraceGrows(done, |part|, accounts, slot);
    assert OpenTrace(Blocks(part), accounts, slot) <= intended;
    RefusedIsNotAdmitted(trace, intended, admits);
  }

  lemma AcceptedSnoc(xs: seq<Extrinsic>, i: nat, accounts: seq<Account>)
    requires accounts != [] && i < |xs|
    ensures Accepted(xs[..i + 1], accounts)
            == if Passes(xs[i], accounts) then Accepted(xs[..i], accounts) + [xs[i]]
               else Accepted(xs[..i], accounts)
    ensures Accepted(xs[..i + 1], accounts) <= Accepted(xs, accounts)
    decreases |xs|
  {
    assert xs[..i + 1][..i] == xs[..i];
    if i + 1 < |xs| {
      AcceptedSnoc(xs[..|xs| - 1], i, accounts);
      assert xs[..|xs| - 1][..i + 1] == xs[..i + 1];
    } else {
      assert xs[..i + 1] == xs;
    }
  }

  /** The loop, from the first block on. */
  method RunExtrinsics(extrinsics: seq<Extrinsic>, accounts: seq<Account>, slot: SlotDuration, overflow: Overflow,
                       admits: Executive, first: seq<Event>)
    returns (trace: seq<Event>, outcome: Outcome)
    requires accounts != [] && first == OpenTrace(Blocks([]), accounts, slot) && AllAdmitted(first, admits)
    ensures IsRunOf(Accepted(extrinsics, accounts), accounts, slot, overflow, admits, trace, outcome)
  {
    var block: u32, weight := 1, Weight(0, 0);
    trace := first;
    ghost var all := Accepted(extrinsics, accounts);
    for i := 0 to |extrinsics|
      invariant Accepted(extrinsics[..i], accounts) <= all
      invariant InStep(Accepted(extrinsics[..i], accounts), accounts, slot, overflow, admits, block, weight, trace)
    {
      var x := extrinsics[i];
      AcceptedSnoc(extrinsics, i, accounts);
      if !Accepts(x.call, OriginNo(x, accounts)) {
        continue;
      }
      ghost var done := Accepted(extrinsics[..i], accounts);
      var status;
      status, block, weight, trace :=
        RunExtrinsic(x, accounts, slot, overflow, admits, block, weight, trace, done);
      if status == Overflowed {
        OverflowEndsRun(all, done, x, accounts, slot, admits, trace);
        return trace, BlockNumberOverflow;
      }
      if status == Refused {
        RefusalEndsRun(all, done + [x], accounts, slot, overflow, admits, trace);
        return trace, InherentRefused;
      }
    }
    assert extrinsics[..|extrinsics|] == extrinsics;
    LastBlockEndsRun(all, accounts, slot, overflow, admits, block, weight, trace);
    return trace + [Finalize], Completed(block);
  }

  lemma FirstBlockTrace(accounts: seq<Account>, slot: SlotDuration)
    requires accounts != []
    ensures OpenTrace(Blocks([]), accounts, slot) == Inherents(1, slot)
  {
    assert Fit([]) == [];
  }

  /** The blocks of a run. */
  method ExecuteBlocks(accounts: seq<Account>, decoded: seq<Extrinsic>, slot: SlotDuration, overflow: Overflow,
                       admits: Executive)
    returns (trace: seq<Event>, outcome: Outcome)
    requires Kept(decoded) != [] ==> accounts != []
    ensures IsRun(accounts, decoded, slot, overflow, admits, trace, outcome)
  {
    var extrinsics := Kept(decoded);
    if extrinsics == [] {
      return [], Idle;
    }
    var refused;
    refused, trace := InitializeBlock(1, slot, admits, []);
    FirstBlockTrace(accounts, slot);
    if refused {
      RefusalEndsRun(Accepted(extrinsics, accounts), [], accounts, slot, overflow, admits, trace);
      return trace, InherentRefused;
    }
    trace, outcome := RunExtrinsics(extrinsics, accounts, slot, overflow, admits, trace);
  }

  /** What a run leaves behind in storage. */
  datatype Storage = Storage(ledger: LedgerCheck.Ledger, order: seq<Account>, issuance: u128, initial: u128)

  /** A run and, once its last block is finalised, the check of the ledger it leaves behind. */
  method ProcessInput(accounts: seq<Account>, decoded: seq<Extrinsic>, slot: SlotDuration, overflow: Overflow,
                      admits: Executive, after: Storage)
    returns (trace: seq<Event>, outcome: Outcome, verdict: Option<LedgerCheck.Verdict>)
    requires Kept(decoded) != [] ==> accounts != []
    requires LedgerCheck.Sums.Enumerates(after.order, after.ledger.Keys)
    ensures IsRun(accounts, decoded, slot, overflow, admits, trace, outcome)
    ensures verdict.Some? <==> outcome.Completed?
    ensures verdict == Some(LedgerCheck.Passed) <==>
            outcome.Completed? && LedgerCheck.Sound(after.ledger, after.issuance, after.initial, overflow)
  {
    trace, outcome := ExecuteBlocks(accounts, decoded, slot, overflow, admits);
    verdict := None;
    if outcome.Completed? {
      var v := LedgerCheck.CheckInvariants(after.ledger, after.order, after.issuance, after.initial, overflow);
      verdict := Some(v);
    }
  }
}
