/** What every run of the block scheduler keeps to. */
module ScheduleLaws {
  import opened Common
  import opened CallFilter
  import opened Scheduler

  // ----- Cutting into blocks -----

  /** The extrinsics of all blocks, in order. */
  function Arrivals(s: Schedule): seq<Extrinsic> {
    if s.Empty? then [] else Arrivals(s.earlier) + s.run
  }

  ghost predicate NoLapse(run: seq<Extrinsic>) { forall i :: 0 <= i < |run| ==> run[i].lapse == 0 }

  /** Blocks start at 1; a block after the first starts with the one extrinsic in it that has a
      lapse, and is numbered by that lapse. */
  ghost predicate WellCut(s: Schedule) {
    && s.Then?
    && if s.earlier.Empty? then s.number == 1 && NoLapse(s.run)
       else && WellCut(s.earlier)
            && s.run != []
            && s.run[0].lapse > 0
            && NoLapse(s.run[1..])
            && s.number == WrappingAdd(s.earlier.number, LapseLength(s.run[0].lapse))
  }

  lemma ArriveKeepsCut(s: Schedule, x: Extrinsic)
    requires WellCut(s)
    ensures WellCut(Arrive(s, x)) && Arrivals(Arrive(s, x)) == Arrivals(s) + [x]
  {
    if x.lapse == 0 && s.earlier.Then? {
      assert (s.run + [x])[1..] == s.run[1..] + [x];
    }
  }

  lemma {:induction false} BlocksAreWellCut(xs: seq<Extrinsic>)
    ensures WellCut(Blocks(xs)) && Arrivals(Blocks(xs)) == xs
  {
    if xs == [] {
    } else {
      var front, x := xs[..|xs| - 1], Last(xs);
      BlocksAreWellCut(front);
      ArriveKeepsCut(Blocks(front), x);
      assert front + [x] == xs;
    }
  }

  /** Undoes the arrival of the last extrinsic. */
  lemma Uncut(s: Schedule, front: seq<Extrinsic>, x: Extrinsic)
    requires WellCut(s) && s.run == front + [x]
    ensures var before := if front == [] && s.earlier.Then? then s.earlier else Then(s.earlier, s.number, front);
            WellCut(before) && Arrive(before, x) == s && Arrivals(before) == Arrivals(s.earlier) + front
  {
    assert forall i :: 0 <= i < |front| ==> front[i] == s.run[i];
    assert s.run[|front|] == x;
    if s.earlier.Then? && front != [] {
      assert s.run[1..] == front[1..] + [x];
      assert s.run[1..][|front| - 1] == x;
      assert forall i :: 0 <= i < |front[1..]| ==> front[1..][i] == s.run[1..][i];
    }
  }

  lemma {:induction false} WellCutIsUnique(xs: seq<Extrinsic>, s: Schedule)
    requires WellCut(s) && Arrivals(s) == xs
    ensures s == Blocks(xs)
    decreases |xs|
  {
    if s.run == [] {
      assert xs == [];
    } else {
      var front, x := s.run[..|s.run| - 1], Last(s.run);
      assert s.run == front + [x];
      assert xs == (Arrivals(s.earlier) + front) + [x];
      var before := if front == [] && s.earlier.Then? then s.earlier else Then(s.earlier, s.number, front);
      Uncut(s, front, x);
      WellCutIsUnique(xs[..|xs| - 1], before);
    }
  }

  /** The blocks of a run are the one way to deal out its extrinsics like this. */
  lemma BlocksMeaning(xs: seq<Extrinsic>, s: Schedule)
    ensures s == Blocks(xs) <==> WellCut(s) && Arrivals(s) == xs
  {
    BlocksAreWellCut(xs);
    if WellCut(s) && Arrivals(s) == xs {
      WellCutIsUnique(xs, s);
    }
  }

  // ----- Filling a block -----

  lemma {:induction false} RefTimeGrows(run: seq<Extrinsic>, k: nat)
    requires k <= |run|
    ensures RefTime(run[..k]) <= RefTime(run)
  {
    if k < |run| {
      RefTimeGrows(run[..|run| - 1], k);
      assert run[..|run| - 1][..k] == run[..k];
    } else {
      assert run[..k] == run;
    }
  }

  /** What of a block is dispatched: a prefix of what arrives in it, below the limit, and cut only
      where the next extrinsic reaches the limit. */
  ghost predicate LongestBelowLimit(run: seq<Extrinsic>, sent: seq<Extrinsic>) {
    && sent <= run
    && RefTime(sent) < BLOCK_LIMIT
    && (|sent| < |run| ==> RefTime(run[..|sent| + 1]) >= BLOCK_LIMIT)
  }

  lemma {:induction false} FitIsLongestBelowLimit(run: seq<Extrinsic>)
    ensures LongestBelowLimit(run, Fit(run))
  {
    if run == [] {
    } else {
      var front, n := run[..|run| - 1], |Fit(run[..|run| - 1])|;
      FitIsLongestBelowLimit(front);
      if n < |front| {
        assert front[..n + 1] == run[..n + 1];
        RefTimeGrows(run, n + 1);
      } else {
        assert Fit(front) == front && front + [Last(run)] == run && run[..n + 1] == run;
      }
    }
  }

  lemma NoLongerPrefix(run: seq<Extrinsic>, sent: seq<Extrinsic>, other: seq<Extrinsic>)
    requires LongestBelowLimit(run, sent) && LongestBelowLimit(run, other)
    ensures |other| <= |sent|
  {
    var k := if |other| <= |sent| then |other| else |sent| + 1;
    assert other[..k] == run[..k];
    RefTimeGrows(other, k);
  }

  /** The saturating meter dispatches exactly the longest prefix that stays below the limit. */
  lemma FitMeaning(run: seq<Extrinsic>, sent: seq<Extrinsic>)
    ensures sent == Fit(run) <==> LongestBelowLimit(run, sent)
  {
    FitIsLongestBelowLimit(run);
    if LongestBelowLimit(run, sent) {
      NoLongerPrefix(run, sent, Fit(run));
      NoLongerPrefix(run, Fit(run), sent);
    }
  }

  /** What is dispatched keeps its order, and each call is signed by the account its origin selects. */
  lemma {:induction false} DispatchesInOrder(run: seq<Extrinsic>, accounts: seq<Account>, i: nat)
    requires accounts != [] && i < |run|
    ensures |Dispatches(run, accounts)| == |run|
    ensures Dispatches(run, accounts)[i] == Dispatch(accounts[run[i].origin % |accounts|], run[i].call)
  {
    var n := |run| - 1;
    if n > 0 {
      DispatchesInOrder(run[..n], accounts, if i < n then i else 0);
    }
  }

  // ----- The protocol of the Executive -----

  /** Where a run stands between two events. */
  datatype Phase =
    | Fresh                  // nothing has happened
    | Closed                 // the last block is finalised
    | Opened(number: u32)    // initialised, no timestamp yet
    | Stamped(number: u32)   // timestamp set, no validation data yet
    | Running                // inherents done, dispatching
    | Broken

  /** A block is linked to the one finalised just before it, the first to none. Its slot, timestamp,
      relay parent and relay slot follow from its number. */
  function Next(p: Phase, e: Event, slot: SlotDuration): Phase {
    match (p, e)
    case (Fresh, Initialize(n, auraSlot, linked)) => if auraSlot == n && !linked then Opened(n) else Broken
    case (Closed, Initialize(n, auraSlot, linked)) => if auraSlot == n && linked then Opened(n) else Broken
    case (Opened(n), SetTimestamp(now)) => if now == slot.Stamp(n) then Stamped(n) else Broken
    case (Stamped(n), SetValidationData(parent, relaySlot, linked)) =>
      if parent == n && relaySlot == 4 * n && (linked <==> n != 1) then Running else Broken
    case (Running, Dispatch(_, _)) => Running
    case (Running, Finalize) => Closed
    case _ => Broken
  }

  function Watch(p: Phase, trace: seq<Event>, slot: SlotDuration): Phase {
    if trace == [] then p else Next(Watch(p, trace[..|trace| - 1], slot), Last(trace), slot)
  }

  lemma {:induction false} WatchConcat(p: Phase, left: seq<Event>, right: seq<Event>, slot: SlotDuration)
    ensures Watch(p, left + right, slot) == Watch(Watch(p, left, slot), right, slot)
    decreases |right|
  {
    if right == [] {
      assert left + right == left;
    } else {
      WatchConcat(p, left, right[..|right| - 1], slot);
      assert (left + right)[..|left + right| - 1] == left + right[..|right| - 1];
    }
  }

  lemma WatchOne(p: Phase, e: Event, slot: SlotDuration)
    ensures Watch(p, [e], slot) == Next(p, e, slot)
  {
    assert [e][..0] == [];
  }

  lemma {:induction false} WatchDispatches(p: Phase, run: seq<Extrinsic>, accounts: seq<Account>, slot: SlotDuration)
    requires accounts != [] && (p.Running? || p.Broken?)
    ensures Watch(p, Dispatches(run, accounts), slot) == p
  {
    if run == [] {
    } else {
      var front := run[..|run| - 1];
      WatchDispatches(p, front, accounts, slot);
      WatchConcat(p, Dispatches(front, accounts), [DispatchOf(Last(run), accounts)], slot);
      WatchOne(p, DispatchOf(Last(run), accounts), slot);
    }
  }

  lemma WatchInherents(p: Phase, number: u32, slot: SlotDuration)
    ensures Watch(p, Inherents(number, slot), slot)
            == if (if number == 1 then p.Fresh? else p.Closed?) then Running else Broken
  {
    var t := Inherents(number, slot);
    assert t == [t[0]] + [t[1]] + [t[2]];
    WatchOne(p, t[0], slot);
    WatchConcat(p, [t[0]], [t[1]], slot);
    WatchOne(Watch(p, [t[0]], slot), t[1], slot);
    WatchConcat(p, [t[0]] + [t[1]], [t[2]], slot);
    WatchOne(Watch(p, [t[0]] + [t[1]], slot), t[2], slot);
  }

  /** A block numbered 1 may only come first, any other only after an open block. */
  lemma WatchSegment(p: Phase, number: u32, run: seq<Extrinsic>, accounts: seq<Account>, slot: SlotDuration)
    requires accounts != []
    ensures Watch(p, Segment(number, run, accounts, slot), slot)
            == if (if number == 1 then p.Fresh? else p.Running?) then Running else Broken
  {
    var begun := Watch(p, OpeningEvents(number, slot), slot);
    if number == 1 {
      WatchInherents(p, number, slot);
    } else {
      WatchConcat(p, [Finalize], Inherents(number, slot), slot);
      WatchOne(p, Finalize, slot);
      WatchInherents(Watch(p, [Finalize], slot), number, slot);
    }
    WatchConcat(p, OpeningEvents(number, slot), Dispatches(Fit(run), accounts), slot);
    WatchDispatches(begun, Fit(run), accounts, slot);
  }

  /** No block after the first is numbered 1. */
  predicate NeverRestarts(s: Schedule) {
    s.Then? && s.earlier.Then? ==> s.number != 1 && NeverRestarts(s.earlier)
  }

  lemma {:induction false} WatchOpenTrace(s: Schedule, accounts: seq<Account>, slot: SlotDuration)
    requires accounts != [] && WellCut(s)
    ensures Watch(Fresh, OpenTrace(s, accounts, slot), slot) == if NeverRestarts(s) then Running else Broken
  {
    var before := OpenTrace(s.earlier, accounts, slot);
    if s.earlier.Then? {
      WatchOpenTrace(s.earlier, accounts, slot);
    }
    WatchConcat(Fresh, before, Segment(s.number, s.run, accounts, slot), slot);
    WatchSegment(Watch(Fresh, before, slot), s.number, s.run, accounts, slot);
  }

  /** The extrinsic at `j` has a lapse that brings the block number back to 1. */
  predicate WrapsToOne(xs: seq<Extrinsic>, j: nat)
    requires j < |xs|
  {
    xs[j].lapse > 0 && Lapses(xs[..j + 1]) % 0x1_0000_0000 == 0
  }

  lemma WrapsInPrefix(xs: seq<Extrinsic>, n: nat)
    requires n < |xs|
    ensures forall j :: 0 <= j < n ==> (WrapsToOne(xs[..n], j) <==> WrapsToOne(xs, j))
    ensures n + 1 == |xs| ==> xs[..n + 1] == xs
  {
    forall j | 0 <= j < n
      ensures WrapsToOne(xs[..n], j) <==> WrapsToOne(xs, j)
    {
      assert xs[..n][..j + 1] == xs[..j + 1];
    }
  }

  ghost predicate NeverWraps(xs: seq<Extrinsic>) { forall j :: 0 <= j < |xs| ==> !WrapsToOne(xs, j) }

  lemma WrapOneLapse(exact: nat, lapse: u8)
    ensures WrappingAdd(Wrap32(exact), LapseLength(lapse)) == Wrap32(exact + 393 * lapse)
    ensures exact + 393 * lapse < U32_LIMIT <==>
            exact < U32_LIMIT && (lapse > 0 ==> Wrap32(exact) + LapseLength(lapse) < U32_LIMIT)
  {
  }

  /** The number of the open block is 1 and 393 for every lapse so far, in 32 bits. */
  lemma {:induction false} NumberIsExactWrapped(xs: seq<Extrinsic>)
    ensures Blocks(xs).number == Wrap32(ExactNumber(xs))
  {
    if xs == [] {
    } else {
      var front := xs[..|xs| - 1];
      NumberIsExactWrapped(front);
      WrapOneLapse(ExactNumber(front), Last(xs).lapse);
    }
  }

  lemma NoMultipleOf393(lapses: nat, n: nat)
    requires lapses % 0x1_0000_0000 != 0
    ensures 393 * lapses != 0x1_0000_0000 * n
  {
    var m := 3988964537 * n - 365 * lapses;
    assert lapses != 0x1_0000_0000 * m;
  }

  lemma MultiplesOf393(lapses: nat, product: nat)
    requires product == 393 * lapses
    ensures product == 0x1_0000_0000 * (product / 0x1_0000_0000) <==> lapses % 0x1_0000_0000 == 0
  {
    if lapses % 0x1_0000_0000 == 0 {
      assert product == 0x1_0000_0000 * (393 * (lapses / 0x1_0000_0000));
    } else {
      NoMultipleOf393(lapses, product / 0x1_0000_0000);
    }
  }

  lemma WrapOneMore(n: nat)
    ensures Wrap32(1 + n) == 1 <==> n == 0x1_0000_0000 * (n / 0x1_0000_0000)
  {
  }

  /** 393 is odd, so it has an inverse modulo 2^32. */
  lemma OneMeansWrapped(lapses: nat)
    ensures Wrap32(1 + 393 * lapses) == 1 <==> lapses % 0x1_0000_0000 == 0
  {
    var product := 393 * lapses;
    WrapOneMore(product);
    MultiplesOf393(lapses, product);
  }

  lemma {:induction false} RestartsFromLapses(xs: seq<Extrinsic>)
    ensures NeverRestarts(Blocks(xs)) <==> NeverWraps(xs)
  {
    if xs == [] {
    } else {
      var n := |xs| - 1;
      var front := xs[..n];
      RestartsFromLapses(front);
      WrapsInPrefix(xs, n);
      NumberIsExactWrapped(xs);
      OneMeansWrapped(Lapses(xs));
      assert NeverRestarts(Blocks(xs)) <==> NeverRestarts(Blocks(front)) && !WrapsToOne(xs, n);
    }
  }

  lemma ClosingFromOpen(trace: seq<Event>, slot: SlotDuration)
    ensures Watch(Fresh, trace, slot) == Running ==> Watch(Fresh, trace + [Finalize], slot) == Closed
    ensures Watch(Fresh, trace, slot) == Broken ==> Watch(Fresh, trace + [Finalize], slot) == Broken
  {
    WatchConcat(Fresh, trace, [Finalize], slot);
    WatchOne(Watch(Fresh, trace, slot), Finalize, slot);
  }

  lemma WatchClosing(s: Schedule, accounts: seq<Account>, slot: SlotDuration)
    requires accounts != [] && WellCut(s)
    ensures var open := OpenTrace(s, accounts, slot);
            && Watch(Fresh, open, slot) == (if NeverRestarts(s) then Running else Broken)
            && Watch(Fresh, open + [Finalize], slot) == if NeverRestarts(s) then Closed else Broken
  {
    WatchOpenTrace(s, accounts, slot);
    ClosingFromOpen(OpenTrace(s, accounts, slot), slot);
  }

  /** A finished trace initialises, stamps, feeds, fills and finalises block after block exactly when no
      lapse brings the total to a multiple of 2^32. */
  lemma TraceKeepsProtocol(xs: seq<Extrinsic>, accounts: seq<Account>, slot: SlotDuration)
    requires accounts != []
    ensures var open := OpenTrace(Blocks(xs), accounts, slot);
            && Watch(Fresh, open, slot) == (if NeverWraps(xs) then Running else Broken)
            && Watch(Fresh, open + [Finalize], slot) == if NeverWraps(xs) then Closed else Broken
  {
    BlocksAreWellCut(xs);
    RestartsFromLapses(xs);
    WatchClosing(Blocks(xs), accounts, slot);
  }

  lemma ShortLapsesNeverWrap(xs: seq<Extrinsic>)
    requires Lapses(xs) < U32_LIMIT
    ensures NeverWraps(xs)
  {
    forall j | 0 <= j < |xs|
      ensures !WrapsToOne(xs, j)
    {
      LapsesGrow(xs, j + 1);
      assert xs[..j + 1][..j] == xs[..j];
    }
  }

  lemma IntendedKeepsProtocol(xs: seq<Extrinsic>, accounts: seq<Account>, slot: SlotDuration, overflow: Overflow)
    requires accounts != []
    ensures Watch(Fresh, Intended(xs, accounts, slot, overflow), slot)
            == if overflow.Checked? && ExactNumber(xs) >= U32_LIMIT then Running
               else if overflow.Checked? || NeverWraps(xs) then Closed else Broken
  {
    var done := Processable(xs, overflow);
    ProcessableMeaning(xs, overflow, 0);
    ProcessableMeaning(xs, overflow, |done|);
    TraceKeepsProtocol(done, accounts, slot);
    assert xs[..|done|] == done;
    if overflow.Checked? && ExactNumber(done) < U32_LIMIT {
      ShortLapsesNeverWrap(done);
    }
  }

  /** What is broken stays broken. */
  lemma {:induction false} WatchPrefix(trace: seq<Event>, longer: seq<Event>, slot: SlotDuration)
    requires trace <= longer
    ensures Watch(Fresh, longer, slot) != Broken ==> Watch(Fresh, trace, slot) != Broken
    decreases |longer|
  {
    if trace == longer {
    } else {
      WatchPrefix(trace, longer[..|longer| - 1], slot);
    }
  }

  /** A trace cut off in front of an inherent stands between the inherents of a block. */
  lemma RefusedTraceIsOpen(trace: seq<Event>, intended: seq<Event>, slot: SlotDuration, admits: Executive)
    requires RefusedIn(trace, intended, admits)
    ensures Watch(Fresh, intended, slot) != Broken ==>
              Watch(Fresh, trace, slot).Opened? || Watch(Fresh, trace, slot).Stamped?
  {
    var e := intended[|trace|];
    WatchConcat(Fresh, trace, [e], slot);
    WatchOne(Watch(Fresh, trace, slot), e, slot);
    WatchPrefix(trace + [e], intended, slot);
  }

  /** Where the trace of a run that reaches its end, overflows or is refused an inherent stands. A build
      with overflow checks keeps the protocol on every input; one without keeps it exactly on the inputs
      that never wrap. */
  lemma RunKeepsProtocol(accounts: seq<Account>, decoded: seq<Extrinsic>, slot: SlotDuration, overflow: Overflow,
                         admits: Executive, trace: seq<Event>, outcome: Outcome)
    requires accounts != [] && IsRun(accounts, decoded, slot, overflow, admits, trace, outcome)
    ensures outcome == Idle ==> trace == []
    ensures outcome.Completed? && overflow.Checked? ==> Watch(Fresh, trace, slot) == Closed
    ensures outcome.Completed? && overflow.Wrapping? ==>
              (Watch(Fresh, trace, slot) == Closed <==> NeverWraps(Accepted(Kept(decoded), accounts)))
    ensures outcome == BlockNumberOverflow ==> Watch(Fresh, trace, slot) == Running
    ensures outcome == InherentRefused && (overflow.Checked? || NeverWraps(Accepted(Kept(decoded), accounts))) ==>
              Watch(Fresh, trace, slot).Opened? || Watch(Fresh, trace, slot).Stamped?
  {
    if Kept(decoded) != [] {
      var xs := Accepted(Kept(decoded), accounts);
      IntendedKeepsProtocol(xs, accounts, slot, overflow);
      if outcome == InherentRefused {
        RefusedTraceIsOpen(trace, Intended(xs, accounts, slot, overflow), slot, admits);
      }
    }
  }

  /** A run that keeps to the protocol, written block by block. */
  function ClosedTrace(s: Schedule, accounts: seq<Account>, slot: SlotDuration): seq<Event>
    requires accounts != []
  {
    match s
    case Empty => []
    case Then(earlier, number, run) =>
      ClosedTrace(earlier, accounts, slot)
      + (Inherents(number, slot) + Dispatches(Fit(run), accounts) + [Finalize])
  }

  lemma MoveFinalize<T>(a: seq<T>, b: seq<T>, c: seq<T>, d: seq<T>, e: seq<T>)
    ensures (a + ((b + c) + d)) + e == (a + b) + ((c + d) + e)
    ensures [] + (c + d) == c + d && [] + ((c + d) + e) == (c + d) + e
  {
  }

  lemma {:induction false} RunIsBlockByBlock(s: Schedule, accounts: seq<Account>, slot: SlotDuration)
    requires accounts != [] && WellCut(s) && NeverRestarts(s)
    ensures OpenTrace(s, accounts, slot) + [Finalize] == ClosedTrace(s, accounts, slot)
  {
    var before := OpenTrace(s.earlier, accounts, slot);
    var inherents, sent := Inherents(s.number, slot), Dispatches(Fit(s.run), accounts);
    if s.earlier.Then? {
      RunIsBlockByBlock(s.earlier, accounts, slot);
      MoveFinalize(before, [Finalize], inherents, sent, [Finalize]);
    } else {
      MoveFinalize([], [], inherents, sent, [Finalize]);
    }
  }

  // ----- What reaches dispatch -----

  /** A dispatched call is not a system call, and every leaf reached through its wrappers is allowed for
      the account that signs it. */
  ghost predicate SafeEvent(e: Event, accounts: seq<Account>) {
    e.Dispatch? ==>
      && !e.call.System?
      && exists n: nat :: n < |accounts| && e.who == accounts[n] && EveryLeafAllowed(e.call, n)
  }

  ghost predicate Dispatchable(x: Extrinsic, accounts: seq<Account>)
    requires accounts != []
  {
    Passes(x, accounts) && !x.call.System?
  }

  lemma DispatchIsSafe(x: Extrinsic, accounts: seq<Account>)
    requires accounts != [] && Dispatchable(x, accounts)
    ensures SafeEvent(DispatchOf(x, accounts), accounts)
  {
    AcceptsIffLeavesAllowed(x.call, OriginNo(x, accounts));
  }

  ghost predicate AllDispatchable(xs: seq<Extrinsic>, accounts: seq<Account>)
    requires accounts != []
  {
    forall i :: 0 <= i < |xs| ==> Dispatchable(xs[i], accounts)
  }

  lemma {:induction false} DispatchesAreSafe(run: seq<Extrinsic>, accounts: seq<Account>)
    requires accounts != [] && AllDispatchable(run, accounts)
    ensures forall e :: e in Dispatches(run, accounts) ==> SafeEvent(e, accounts)
  {
    if run == [] {
    } else {
      DispatchesAreSafe(run[..|run| - 1], accounts);
      DispatchIsSafe(Last(run), accounts);
    }
  }

  lemma SegmentIsSafe(number: u32, run: seq<Extrinsic>, accounts: seq<Account>, slot: SlotDuration)
    requires accounts != [] && AllDispatchable(run, accounts)
    ensures forall e :: e in Segment(number, run, accounts, slot) ==> SafeEvent(e, accounts)
  {
    FitIsLongestBelowLimit(run);
    DispatchesAreSafe(Fit(run), accounts);
    assert forall e :: e in OpeningEvents(number, slot) ==> !e.Dispatch?;
  }

  lemma SplitDispatchable(left: seq<Extrinsic>, right: seq<Extrinsic>, accounts: seq<Account>)
    requires accounts != [] && AllDispatchable(left + right, accounts)
    ensures AllDispatchable(left, accounts) && AllDispatchable(right, accounts)
  {
    assert forall i :: 0 <= i < |left| ==> left[i] == (left + right)[i];
    assert forall i :: 0 <= i < |right| ==> right[i] == (left + right)[|left| + i];
  }

  lemma {:induction false} OpenTraceIsSafe(s: Schedule, accounts: seq<Account>, slot: SlotDuration)
    requires accounts != [] && AllDispatchable(Arrivals(s), accounts)
    ensures forall e :: e in OpenTrace(s, accounts, slot) ==> SafeEvent(e, accounts)
  {
    if s.Empty? {
    } else {
      SplitDispatchable(Arrivals(s.earlier), s.run, accounts);
      OpenTraceIsSafe(s.earlier, accounts, slot);
      SegmentIsSafe(s.number, s.run, accounts, slot);
    }
  }

  lemma {:induction false} AcceptedAreDispatchable(xs: seq<Extrinsic>, accounts: seq<Account>)
    requires accounts != [] && forall i :: 0 <= i < |xs| ==> !xs[i].call.System?
    ensures AllDispatchable(Accepted(xs, accounts), accounts)
  {
    if xs == [] {
    } else {
      AcceptedAreDispatchable(xs[..|xs| - 1], accounts);
    }
  }

  lemma {:induction false} KeptAreNoSystemCalls(decoded: seq<Extrinsic>)
    ensures forall i :: 0 <= i < |Kept(decoded)| ==> !Kept(decoded)[i].call.System?
  {
    if decoded == [] {
    } else {
      KeptAreNoSystemCalls(decoded[..|decoded| - 1]);
    }
  }

  lemma AcceptedTraceIsSafe(decoded: seq<Extrinsic>, k: nat, accounts: seq<Account>, slot: SlotDuration)
    requires accounts != [] && k <= |Accepted(Kept(decoded), accounts)|
    ensures forall e :: e in OpenTrace(Blocks(Accepted(Kept(decoded), accounts)[..k]), accounts, slot) ==>
              SafeEvent(e, accounts)
  {
    var xs := Accepted(Kept(decoded), accounts);
    KeptAreNoSystemCalls(decoded);
    AcceptedAreDispatchable(Kept(decoded), accounts);
    BlocksAreWellCut(xs[..k]);
    OpenTraceIsSafe(Blocks(xs[..k]), accounts, slot);
  }

  /** Over every run, however it ends, nothing forbidden is dispatched, however it is wrapped: no call that
      replaces the runtime, wipes storage, tampers with the issuance or raises the candidate limit, and no
      sudo call but from the first account. */
  lemma EveryDispatchIsSafe(accounts: seq<Account>, decoded: seq<Extrinsic>, slot: SlotDuration, overflow: Overflow,
                            admits: Executive, trace: seq<Event>, outcome: Outcome)
    requires accounts != [] && IsRun(accounts, decoded, slot, overflow, admits, trace, outcome)
    ensures forall e :: e in trace ==> SafeEvent(e, accounts)
  {
    if Kept(decoded) != [] {
      var xs := Accepted(Kept(decoded), accounts);
      var intended, done := Intended(xs, accounts, slot, overflow), Processable(xs, overflow);
      ProcessableMeaning(xs, overflow, 0);
      assert xs[..|done|] == done;
      AcceptedTraceIsSafe(decoded, |done|, accounts, slot);
      assert forall e :: e in intended ==> SafeEvent(e, accounts);
      assert trace <= intended;
    }
  }

  /** The element at `i` of `part` comes from place `at[i]` of `whole`, in order. */
  ghost predicate Places<T>(part: seq<T>, whole: seq<T>, at: seq<nat>) {
    && |at| == |part|
    && (forall i :: 0 <= i < |at| ==> at[i] < |whole| && whole[at[i]] == part[i])
    && (forall i, j :: 0 <= i < j < |at| ==> at[i] < at[j])
  }

  /** `part` is what is left of `whole` when some elements are crossed out. */
  ghost predicate IsSubsequence<T>(part: seq<T>, whole: seq<T>) {
    exists at: seq<nat> :: Places(part, whole, at)
  }

  lemma SubsequenceSnoc<T>(part: seq<T>, whole: seq<T>, t: T)
    requires IsSubsequence(part, whole)
    ensures IsSubsequence(part, whole + [t]) && IsSubsequence(part + [t], whole + [t])
  {
    var at: seq<nat> :| Places(part, whole, at);
    assert Places(part, whole + [t], at);
    assert Places(part + [t], whole + [t], at + [|whole|]);
  }

  lemma {:induction false} FiltersKeepOrder(xs: seq<Extrinsic>, accounts: seq<Account>)
    requires accounts != []
    ensures IsSubsequence(Kept(xs), xs) && IsSubsequence(Accepted(xs, accounts), xs)
  {
    if xs == [] {
      assert Places(Kept(xs), xs, []) && Places(Accepted(xs, accounts), xs, []);
    } else {
      var front := xs[..|xs| - 1];
      FiltersKeepOrder(front, accounts);
      assert xs == front + [Last(xs)];
      SubsequenceSnoc(Kept(front), front, Last(xs));
      SubsequenceSnoc(Accepted(front, accounts), front, Last(xs));
    }
  }

  lemma {:induction false} FiltersKeepCopies(xs: seq<Extrinsic>, accounts: seq<Account>, x: Extrinsic)
    requires accounts != []
    ensures multiset(Kept(xs))[x] == if x.call.System? then 0 else multiset(xs)[x]
    ensures multiset(Accepted(xs, accounts))[x] == if Passes(x, accounts) then multiset(xs)[x] else 0
  {
    if xs == [] {
    } else {
      FiltersKeepCopies(xs[..|xs| - 1], accounts, x);
      assert xs == xs[..|xs| - 1] + [Last(xs)];
    }
  }

  /** The filters only cross out: what they keep is in the order it came in, with every copy of an
      extrinsic that is no system call, or whose leaves are all allowed for its signer, and none of any
      other. */
  lemma FiltersOnlyCrossOut(xs: seq<Extrinsic>, accounts: seq<Account>, x: Extrinsic)
    requires accounts != []
    ensures IsSubsequence(Kept(xs), xs) && IsSubsequence(Accepted(xs, accounts), xs)
    ensures multiset(Kept(xs))[x] == if x.call.System? then 0 else multiset(xs)[x]
    ensures multiset(Accepted(xs, accounts))[x]
            == if EveryLeafAllowed(x.call, x.origin % |accounts|) then multiset(xs)[x] else 0
  {
    FiltersKeepOrder(xs, accounts);
    FiltersKeepCopies(xs, accounts, x);
    AcceptsIffLeavesAllowed(x.call, OriginNo(x, accounts));
  }

  /** Nothing is crossed out of a list of extrinsics that may be dispatched. */
  lemma {:induction false} DispatchableArePassedOn(xs: seq<Extrinsic>, accounts: seq<Account>)
    requires accounts != [] && AllDispatchable(xs, accounts)
    ensures Kept(xs) == xs && Accepted(xs, accounts) == xs
  {
    if xs == [] {
    } else {
      DispatchableArePassedOn(xs[..|xs| - 1], accounts);
      assert xs == xs[..|xs| - 1] + [Last(xs)];
    }
  }

  // ----- A run read off its input -----

  /** No system call, and every leaf allowed for the account at its origin modulo the accounts. */
  ghost predicate Allowed(x: Extrinsic, accounts: seq<Account>)
    requires accounts != []
  {
    !x.call.System? && EveryLeafAllowed(x.call, x.origin % |accounts|)
  }

  /** All lapses of the allowed extrinsics. */
  ghost function AllowedLapses(decoded: seq<Extrinsic>, accounts: seq<Account>): nat
    requires accounts != []
  {
    if decoded == [] then 0
    else AllowedLapses(decoded[..|decoded| - 1], accounts)
         + if Allowed(Last(decoded), accounts) then Last(decoded).lapse else 0
  }

  /** The computation time charged to the open block: a lapse starts anew, and a call is charged whether
      or not it is dispatched. */
  ghost function Load(decoded: seq<Extrinsic>, accounts: seq<Account>): nat
    requires accounts != []
  {
    if decoded == [] then 0
    else
      var earlier, x := Load(decoded[..|decoded| - 1], accounts), Last(decoded);
      if !Allowed(x, accounts) then earlier
      else (if x.lapse > 0 then 0 else earlier) + x.weight.refTime
  }

  ghost function ReferenceNumber(decoded: seq<Extrinsic>, accounts: seq<Account>): u32
    requires accounts != []
  {
    (1 + 393 * AllowedLapses(decoded, accounts)) % 0x1_0000_0000
  }

  /** The events that open the block with a given number. */
  function ReferenceOpening(number: u32, slot: SlotDuration): seq<Event> {
    (if number == 1 then [] else [Finalize])
    + [Initialize(number, number, number != 1),
       SetTimestamp(if slot.Standard? then 24000 * number else 12000 * number),
       SetValidationData(number, 4 * number, number != 1)]
  }

  /** The events of a run while its last block is open, one extrinsic after the other: an allowed one with
      a lapse opens a block, and an allowed one is dispatched if the load of its block with it stays below
      two seconds. */
  ghost function ReferenceTrace(decoded: seq<Extrinsic>, accounts: seq<Account>, slot: SlotDuration): seq<Event>
    requires accounts != []
  {
    if decoded == [] then ReferenceOpening(1, slot)
    else
      var earlier, x := ReferenceTrace(decoded[..|decoded| - 1], accounts, slot), Last(decoded);
      if !Allowed(x, accounts) then earlier
      else
        var begun := if x.lapse > 0 then earlier + ReferenceOpening(ReferenceNumber(decoded, accounts), slot)
                      else earlier;
        if Load(decoded, accounts) < 2_000_000_000_000
        then begun + [Dispatch(accounts[x.origin % |accounts|], x.call)]
        else begun
  }

  lemma OpeningMatches(number: u32, slot: SlotDuration)
    ensures OpeningEvents(number, slot) == ReferenceOpening(number, slot)
  {
  }

  lemma AllowedMeaning(x: Extrinsic, accounts: seq<Account>)
    requires accounts != []
    ensures Allowed(x, accounts) <==> Passes(x, accounts) && !x.call.System?
  {
    AcceptsIffLeavesAllowed(x.call, OriginNo(x, accounts));
  }

  lemma FilteredSnoc(decoded: seq<Extrinsic>, accounts: seq<Account>)
    requires accounts != [] && decoded != []
    ensures var earlier, x := Accepted(Kept(decoded[..|decoded| - 1]), accounts), Last(decoded);
            Accepted(Kept(decoded), accounts) == if Allowed(x, accounts) then earlier + [x] else earlier
  {
    AllowedMeaning(Last(decoded), accounts);
    var kept := Kept(decoded[..|decoded| - 1]);
    assert (kept + [Last(decoded)])[..|kept|] == kept;
  }

  lemma {:induction false} LapsesMatch(decoded: seq<Extrinsic>, accounts: seq<Account>)
    requires accounts != []
    ensures AllowedLapses(decoded, accounts) == Lapses(Accepted(Kept(decoded), accounts))
  {
    if decoded == [] {
    } else {
      var front := decoded[..|decoded| - 1];
      LapsesMatch(front, accounts);
      FilteredSnoc(decoded, accounts);
      BlocksSnoc(Accepted(Kept(front), accounts), Last(decoded));
    }
  }

  lemma {:induction false} LoadMatches(decoded: seq<Extrinsic>, accounts: seq<Account>)
    requires accounts != []
    ensures Load(decoded, accounts) == RefTime(Blocks(Accepted(Kept(decoded), accounts)).run)
  {
    if decoded == [] {
    } else {
      var front, x := decoded[..|decoded| - 1], Last(decoded);
      LoadMatches(front, accounts);
      FilteredSnoc(decoded, accounts);
      BlocksSnoc(Accepted(Kept(front), accounts), x);
      ExtrinsicArrives(Blocks(Accepted(Kept(front), accounts)), x, accounts, Standard);
    }
  }

  lemma LoadsMatch(decoded: seq<Extrinsic>, accounts: seq<Account>)
    requires accounts != []
    ensures var s := Blocks(Accepted(Kept(decoded), accounts));
            && AllowedLapses(decoded, accounts) == Lapses(Accepted(Kept(decoded), accounts))
            && Load(decoded, accounts) == RefTime(s.run)
            && ReferenceNumber(decoded, accounts) == s.number
  {
    LapsesMatch(decoded, accounts);
    LoadMatches(decoded, accounts);
    NumberIsExactWrapped(Accepted(Kept(decoded), accounts));
  }

  lemma {:induction false} TraceMatches(decoded: seq<Extrinsic>, accounts: seq<Account>, slot: SlotDuration)
    requires accounts != []
    ensures ReferenceTrace(decoded, accounts, slot) == OpenTrace(Blocks(Accepted(Kept(decoded), accounts)), accounts, slot)
  {
    if decoded == [] {
      FirstBlockTrace(accounts, slot);
      OpeningMatches(1, slot);
    } else {
      var front, x := decoded[..|decoded| - 1], Last(decoded);
      var earlier := Accepted(Kept(front), accounts);
      TraceMatches(front, accounts, slot);
      LoadsMatch(decoded, accounts);
      FilteredSnoc(decoded, accounts);
      if Allowed(x, accounts) {
        BlocksSnoc(earlier, x);
        ExtrinsicArrives(Blocks(earlier), x, accounts, slot);
        OpeningMatches(Arrive(Blocks(earlier), x).number, slot);
      }
    }
  }

  lemma {:induction false} KeptIsEmpty(decoded: seq<Extrinsic>)
    ensures Kept(decoded) == [] <==> forall x :: x in decoded ==> x.call.System?
  {
    if decoded == [] {
    } else {
      KeptIsEmpty(decoded[..|decoded| - 1]);
      assert decoded == decoded[..|decoded| - 1] + [Last(decoded)];
    }
  }

  /** The exact number of the block the last allowed extrinsic belongs to fits 32 bits. */
  ghost predicate Fits(decoded: seq<Extrinsic>, accounts: seq<Account>)
    requires accounts != []
  {
    1 + 393 * AllowedLapses(decoded, accounts) < 0x1_0000_0000
  }

  /** With overflow checks the run stops in front of the first extrinsic whose block number does not fit. */
  lemma {:induction false} StopMatches(decoded: seq<Extrinsic>, accounts: seq<Account>) returns (k: nat)
    requires accounts != [] && !Fits(decoded, accounts)
    ensures k < |decoded| && Fits(decoded[..k], accounts) && !Fits(decoded[..k + 1], accounts)
    ensures Processable(Accepted(Kept(decoded), accounts), Checked) == Accepted(Kept(decoded[..k]), accounts)
  {
    var front := decoded[..|decoded| - 1];
    LapsesMatch(decoded, accounts);
    LapsesMatch(front, accounts);
    FilteredSnoc(decoded, accounts);
    if Fits(front, accounts) {
      k := |front|;
      assert decoded[..k] == front && decoded[..k + 1] == decoded;
    } else {
      k := StopMatches(front, accounts);
      assert decoded[..k] == front[..k] && decoded[..k + 1] == front[..k + 1];
    }
  }

  lemma RefusedInLonger(trace: seq<Event>, intended: seq<Event>, longer: seq<Event>, admits: Executive)
    requires RefusedIn(trace, intended, admits) && intended <= longer
    ensures RefusedIn(trace, longer, admits)
  {
    assert longer[..|intended|] == intended;
  }

  /** Every run is the reference trace of its input. It is finalised when it completes; with overflow checks
      it ends in front of the first extrinsic whose block number does not fit, if there is one; and it is cut
      off in front of the first refused inherent. */
  lemma RunMatchesReference(accounts: seq<Account>, decoded: seq<Extrinsic>, slot: SlotDuration, overflow: Overflow,
                            admits: Executive, trace: seq<Event>, outcome: Outcome)
    requires accounts != [] && IsRun(accounts, decoded, slot, overflow, admits, trace, outcome)
    ensures outcome == Idle <==> forall x :: x in decoded ==> x.call.System?
    ensures outcome.Completed? ==>
              && trace == ReferenceTrace(decoded, accounts, slot) + [Finalize]
              && outcome.block == ReferenceNumber(decoded, accounts)
              && (overflow.Wrapping? || Fits(decoded, accounts))
    ensures outcome == BlockNumberOverflow ==>
              && overflow.Checked?
              && exists k: nat :: k < |decoded| && trace == ReferenceTrace(decoded[..k], accounts, slot)
                                  && Fits(decoded[..k], accounts) && !Fits(decoded[..k + 1], accounts)
    ensures outcome == InherentRefused ==> RefusedIn(trace, ReferenceTrace(decoded, accounts, slot) + [Finalize], admits)
  {
    KeptIsEmpty(decoded);
    if Kept(decoded) != [] {
      var xs := Accepted(Kept(decoded), accounts);
      LoadsMatch(decoded, accounts);
      TraceMatches(decoded, accounts, slot);
      ProcessableMeaning(xs, overflow, 0);
      var done := Processable(xs, overflow);
      if outcome == InherentRefused {
        assert xs[..|done|] == done;
        TraceGrows(xs, |done|, accounts, slot);
        RefusedInLonger(trace, Intended(xs, accounts, slot, overflow),
                        ReferenceTrace(decoded, accounts, slot) + [Finalize], admits);
      } else if outcome == BlockNumberOverflow {
        var k := StopMatches(decoded, accounts);
        TraceMatches(decoded[..k], accounts, slot);
      }
    }
  }

  // ----- Block numbers and times over a run -----

  /** The numbers of the blocks a trace initialises, or the times it sets. */
  datatype Reading = Number | Time

  function Read(r: Reading, e: Event): Option<nat> {
    if r.Number? && e.Initialize? then Some(e.number)
    else if r.Time? && e.SetTimestamp? then Some(e.now)
    else None
  }

  function Readings(trace: seq<Event>, read: Reading): seq<nat> {
    if trace == [] then []
    else
      var earlier := Readings(trace[..|trace| - 1], read);
      match Read(read, Last(trace))
      case Some(n) => earlier + [n]
      case None => earlier
  }

  ghost predicate StrictlyIncreasing(ns: seq<nat>) { forall i, j :: 0 <= i < j < |ns| ==> ns[i] < ns[j] }

  lemma ReadingsSnoc(trace: seq<Event>, e: Event, read: Reading)
    ensures Readings(trace + [e], read)
            == match Read(read, e) case Some(n) => Readings(trace, read) + [n] case None => Readings(trace, read)
  {
    assert (trace + [e])[..|trace|] == trace;
  }

  lemma {:induction false} ReadingsOfDispatches(trace: seq<Event>, run: seq<Extrinsic>, accounts: seq<Account>, read: Reading)
    requires accounts != []
    ensures Readings(trace + Dispatches(run, accounts), read) == Readings(trace, read)
  {
    if run == [] {
      assert trace + Dispatches(run, accounts) == trace;
    } else {
      var front := run[..|run| - 1];
      ReadingsOfDispatches(trace, front, accounts, read);
      assert trace + Dispatches(run, accounts) == (trace + Dispatches(front, accounts)) + [DispatchOf(Last(run), accounts)];
      ReadingsSnoc(trace + Dispatches(front, accounts), DispatchOf(Last(run), accounts), read);
    }
  }

  /** What a reading of an opening adds. */
  function OpeningReading(read: Reading, number: u32, slot: SlotDuration): nat {
    if read.Number? then number else slot.Stamp(number)
  }

  lemma ReadingsOfOpening(trace: seq<Event>, number: u32, slot: SlotDuration, read: Reading)
    ensures Readings(trace + OpeningEvents(number, slot), read)
            == Readings(trace, read) + [OpeningReading(read, number, slot)]
  {
    OpeningEventsInOrder(number, slot, trace);
    var started := Started(number, trace);
    ReadingsSnoc(trace, Finalize, read);
    ReadingsSnoc(if number != 1 then trace + [Finalize] else trace, Initialize(number, number, number != 1), read);
    ReadingsSnoc(started, SetTimestamp(slot.Stamp(number)), read);
    ReadingsSnoc(started + [SetTimestamp(slot.Stamp(number))], SetValidationData(number, 4 * number, number != 1), read);
  }

  lemma ReadingsEndOpen(s: Schedule, accounts: seq<Account>, slot: SlotDuration, read: Reading)
    requires accounts != [] && s.Then?
    ensures Readings(OpenTrace(s, accounts, slot), read)
            == Readings(OpenTrace(s.earlier, accounts, slot), read) + [OpeningReading(read, s.number, slot)]
  {
    var before, opening := OpenTrace(s.earlier, accounts, slot), OpeningEvents(s.number, slot);
    var sent := Dispatches(Fit(s.run), accounts);
    assert before + (opening + sent) == (before + opening) + sent;
    ReadingsOfOpening(before, s.number, slot, read);
    ReadingsOfDispatches(before + opening, Fit(s.run), accounts, read);
  }

  lemma IncreasingSnoc(ns: seq<nat>, n: nat)
    requires ns != []
    ensures StrictlyIncreasing(ns + [n]) <==> StrictlyIncreasing(ns) && Last(ns) < n
  {
    assert forall i :: 0 <= i < |ns| ==> (ns + [n])[i] == ns[i];
    assert (ns + [n])[|ns|] == n;
  }

  lemma ReadingsOnArrival(s: Schedule, x: Extrinsic, accounts: seq<Account>, slot: SlotDuration, read: Reading)
    requires accounts != [] && s.Then?
    ensures StrictlyIncreasing(Readings(OpenTrace(Arrive(s, x), accounts, slot), read)) <==>
            && StrictlyIncreasing(Readings(OpenTrace(s, accounts, slot), read))
            && (x.lapse > 0 ==> s.number + LapseLength(x.lapse) < U32_LIMIT)
  {
    ReadingsEndOpen(s, accounts, slot, read);
    ReadingsEndOpen(Arrive(s, x), accounts, slot, read);
    IncreasingSnoc(Readings(OpenTrace(s, accounts, slot), read), OpeningReading(read, Arrive(s, x).number, slot));
  }

  /** The blocks of a run are numbered in strictly increasing order, and stamped with strictly increasing
      times, exactly when 1 and 393 for every lapse fit the width of block numbers. */
  lemma {:induction false} NumbersAndTimesIncrease(xs: seq<Extrinsic>, accounts: seq<Account>, slot: SlotDuration,
                                                   read: Reading)
    requires accounts != []
    ensures StrictlyIncreasing(Readings(OpenTrace(Blocks(xs), accounts, slot), read)) <==> ExactNumber(xs) < U32_LIMIT
  {
    if xs == [] {
      ReadingsEndOpen(Blocks(xs), accounts, slot, read);
      assert Readings(OpenTrace(Empty, accounts, slot), read) == [];
    } else {
      var front, x := xs[..|xs| - 1], Last(xs);
      NumbersAndTimesIncrease(front, accounts, slot, read);
      NumberIsExactWrapped(front);
      WrapOneLapse(ExactNumber(front), x.lapse);
      ReadingsOnArrival(Blocks(front), x, accounts, slot, read);
    }
  }

  // ----- An Executive that keeps time -----

  /** Refuses every timestamp that is not later than all before it. */
  ghost predicate KeepsTime(admits: Executive) {
    forall trace, now: u64 :: admits(trace, SetTimestamp(now)) ==>
      forall t :: t in Readings(trace, Time) ==> t < now
  }

  lemma {:induction false} AdmittedTimesIncrease(trace: seq<Event>, admits: Executive)
    requires KeepsTime(admits) && AllAdmitted(trace, admits)
    ensures StrictlyIncreasing(Readings(trace, Time))
  {
    if trace == [] {
    } else {
      var earlier, e := trace[..|trace| - 1], Last(trace);
      AdmittedTimesIncrease(earlier, admits);
      if e.SetTimestamp? {
        assert admits(earlier, SetTimestamp(e.now));
        var ns := Readings(earlier, Time);
        assert ns != [] ==> Last(ns) in ns;
        if ns != [] {
          IncreasingSnoc(ns, e.now);
        }
      }
    }
  }

  /** Under an Executive that keeps time every completed run keeps the protocol, whatever overflow does:
      a block number that wraps is refused with its timestamp. */
  lemma TimekeepersKeepProtocol(accounts: seq<Account>, decoded: seq<Extrinsic>, slot: SlotDuration,
                                overflow: Overflow, admits: Executive, trace: seq<Event>, outcome: Outcome)
    requires accounts != [] && IsRun(accounts, decoded, slot, overflow, admits, trace, outcome)
    requires KeepsTime(admits) && outcome.Completed?
    ensures ExactNumber(Accepted(Kept(decoded), accounts)) < U32_LIMIT
    ensures Watch(Fresh, trace, slot) == Closed
  {
    var xs := Accepted(Kept(decoded), accounts);
    var open := OpenTrace(Blocks(xs), accounts, slot);
    ProcessableMeaning(xs, overflow, |xs|);
    assert trace == open + [Finalize];
    AdmittedSnoc(open, Finalize, admits);
    AdmittedTimesIncrease(open, admits);
    NumbersAndTimesIncrease(xs, accounts, slot, Time);
    ShortLapsesNeverWrap(xs);
    TraceKeepsProtocol(xs, accounts, slot);
  }

  /** How many extrinsics open a block. */
  function Advances(xs: seq<Extrinsic>): nat {
    if xs == [] then 0 else Advances(xs[..|xs| - 1]) + if Last(xs).lapse > 0 then 1 else 0
  }

  /** Block numbers stay in range while at most 42857 extrinsics open a block, and the protocol holds
      while at most 16843009 do. */
  lemma {:induction false} AdvanceBudget(xs: seq<Extrinsic>)
    ensures Lapses(xs) <= 255 * Advances(xs)
    ensures Advances(xs) <= 42857 ==> ExactNumber(xs) < U32_LIMIT
    ensures Advances(xs) <= 16843009 ==> NeverWraps(xs)
  {
    if xs == [] {
    } else {
      var front, n := xs[..|xs| - 1], |xs| - 1;
      AdvanceBudget(front);
      WrapsInPrefix(xs, n);
    }
  }

  function Repeat(x: Extrinsic, n: nat): (xs: seq<Extrinsic>)
    ensures |xs| == n
  {
    if n == 0 then [] else Repeat(x, n - 1) + [x]
  }

  lemma {:induction false} LapsesOfRepeat(x: Extrinsic, n: nat)
    requires x.lapse == 255
    ensures Lapses(Repeat(x, n)) == 255 * n
  {
    if n == 0 {
    } else {
      LapsesOfRepeat(x, n - 1);
      assert Repeat(x, n)[..n - 1] == Repeat(x, n - 1);
    }
  }

  lemma {:induction false} RepeatIsDispatchable(x: Extrinsic, n: nat, accounts: seq<Account>)
    requires accounts != [] && Dispatchable(x, accounts)
    ensures AllDispatchable(Repeat(x, n), accounts)
  {
    if n == 0 {
    } else {
      RepeatIsDispatchable(x, n - 1, accounts);
    }
  }

  /** An Executive that accepts every inherent. */
  function Obliging(): Executive { (trace, e) => true }

  lemma {:induction false} ObligingAdmitsAll(trace: seq<Event>)
    ensures AllAdmitted(trace, Obliging())
  {
    if trace == [] {
    } else {
      ObligingAdmitsAll(trace[..|trace| - 1]);
    }
  }

  /** The budgets cannot be raised, whatever extrinsics pass the filters. 42858 of the longest lapse are
      an input whose run overflows. */
  lemma RangeBudgetIsTight(longest: Extrinsic, accounts: seq<Account>, slot: SlotDuration)
    requires accounts != [] && longest.lapse == 255 && Dispatchable(longest, accounts)
    ensures var xs := Repeat(longest, 42858);
            IsRun(accounts, xs, slot, Checked, Obliging(), Intended(xs, accounts, slot, Checked), BlockNumberOverflow)
  {
    var xs := Repeat(longest, 42858);
    RepeatIsDispatchable(longest, 42858, accounts);
    DispatchableArePassedOn(xs, accounts);
    LapsesOfRepeat(longest, 42858);
    ObligingAdmitsAll(Intended(xs, accounts, slot, Checked));
  }

  lemma FullTurn(xs: seq<Extrinsic>)
    requires Lapses(xs) == U32_LIMIT
    ensures Blocks(xs).number == 1
  {
    NumberIsExactWrapped(xs);
    assert ExactNumber(xs) == 1 + 393 * 0x1_0000_0000;
  }

  lemma ComesBackToOne(xs: seq<Extrinsic>, x: Extrinsic)
    requires x.lapse > 0 && Lapses(xs) + x.lapse == U32_LIMIT
    ensures WrapsToOne(xs + [x], |xs|)
    ensures Blocks(xs + [x]).number == 1
  {
    assert (xs + [x])[..|xs|] == xs && (xs + [x])[..|xs| + 1] == xs + [x];
    FullTurn(xs + [x]);
  }

  /** 16843009 of the longest lapse and one lapse of 1 are an input that, without overflow checks and with
      an Executive that refuses nothing, opens block 1 a second time and breaks the protocol. */
  lemma ProtocolBudgetIsTight(longest: Extrinsic, shortest: Extrinsic, accounts: seq<Account>, slot: SlotDuration)
    requires accounts != [] && longest.lapse == 255 && shortest.lapse == 1
    requires Dispatchable(longest, accounts) && Dispatchable(shortest, accounts)
    ensures var xs := Repeat(longest, 16843009) + [shortest];
            var trace := OpenTrace(Blocks(xs), accounts, slot) + [Finalize];
            && IsRun(accounts, xs, slot, Wrapping, Obliging(), trace, Completed(1))
            && Watch(Fresh, trace, slot) == Broken
  {
    var most := Repeat(longest, 16843009);
    var xs := most + [shortest];
    RepeatIsDispatchable(longest, 16843009, accounts);
    DispatchableArePassedOn(xs, accounts);
    LapsesOfRepeat(longest, 16843009);
    ComesBackToOne(most, shortest);
    TraceKeepsProtocol(xs, accounts, slot);
    ProcessableMeaning(xs, Wrapping, |xs|);
    ObligingAdmitsAll(Intended(xs, accounts, slot, Wrapping));
  }
}
