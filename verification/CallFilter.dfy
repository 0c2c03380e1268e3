/** The fuzzer's filter over trees of nested runtime calls. */
module CallFilter {
  import opened Common

  datatype SudoKind = SudoCall | SudoUncheckedWeight

  datatype WrapperKind =
    | WithWeight | DispatchAs | AsDerivative
    | Schedule | ScheduleNamed | ScheduleAfter | ScheduleNamedAfter
    | AsMultiThreshold1 | AsMulti
    | DispatchWhitelistedCallWithPreimage

  datatype BatchKind = PlainBatch | ForceBatch | BatchAll

  datatype SystemCall = SetCode | KillPrefix | OtherSystem(tag: nat)

  /** Runtime calls, as far as the filter tells them apart. `Other` stands for every call the filter
      does not name; a call hidden inside one of those is not looked at. */
  datatype Call =
    | Sudo(sudoKind: SudoKind, inner: Call)
    | OtherSudo(tag: nat)
    | Wrapper(kind: WrapperKind, inner: Call)
    | Batch(batchKind: BatchKind, calls: seq<Call>)
    | System(system: SystemCall)
    | SetDesiredCandidates(max: u32)
    | ForceAdjustTotalIssuance
    | Other(tag: nat)

  const MAX_CANDIDATES: nat := 100

  predicate Accepts(call: Call, origin: nat)
    decreases call
  {
    match call
    case Sudo(_, inner) => if origin == 0 then Accepts(inner, origin) else false
    case Wrapper(_, inner) => Accepts(inner, origin)
    case Batch(_, calls) => forall i :: 0 <= i < |calls| ==> Accepts(calls[i], origin)
    case OtherSudo(_) => origin == 0
    case System(system) => system.OtherSystem?
    case SetDesiredCandidates(max) => max < MAX_CANDIDATES
    case ForceAdjustTotalIssuance => false
    case Other(_) => true
  }

  // ----- The declarative reading: what is reached through transparent wrappers -----

  /** The calls one level down, where the filter looks through `call`; `None` at a leaf. */
  function Children(call: Call, origin: nat): Option<seq<Call>> {
    match call
    case Sudo(_, inner) => if origin == 0 then Some([inner]) else None
    case Wrapper(_, inner) => Some([inner])
    case Batch(_, calls) => Some(calls)
    case _ => None
  }

  /** The leaf at the end of `path`, if the path leads to one. */
  function LeafAt(call: Call, origin: nat, path: seq<nat>): Option<Call>
    decreases |path|
  {
    match Children(call, origin)
    case None => if path == [] then Some(call) else None
    case Some(below) =>
      if path == [] || path[0] >= |below| then None else LeafAt(below[path[0]], origin, path[1..])
  }

  /** What may be dispatched: no replacement of the runtime, no wiping of storage, no tampering with
      the issuance, no raising of the candidate limit, and sudo for the first account only. */
  predicate LeafAllowed(leaf: Call, origin: nat) {
    && leaf != System(SetCode) && leaf != System(KillPrefix)
    && leaf != ForceAdjustTotalIssuance
    && (leaf.SetDesiredCandidates? ==> leaf.max < 100)
    && (leaf.Sudo? || leaf.OtherSudo? ==> origin == 0)
  }

  ghost predicate EveryLeafAllowed(call: Call, origin: nat) {
    forall path :: LeafAt(call, origin, path).Some? ==> LeafAllowed(LeafAt(call, origin, path).value, origin)
  }

  predicate AcceptsAll(calls: seq<Call>, origin: nat) {
    forall i :: 0 <= i < |calls| ==> Accepts(calls[i], origin)
  }

  lemma AcceptsIffChildren(call: Call, origin: nat, below: seq<Call>)
    requires Children(call, origin) == Some(below)
    ensures Accepts(call, origin) <==> AcceptsAll(below, origin)
  {
    if call.Sudo? || call.Wrapper? {
      assert below[0] == call.inner;
    }
  }

  /** The leaves of a call that is looked through are the leaves of its children. */
  lemma {:induction false} LeavesOfChildren(call: Call, origin: nat, below: seq<Call>)
    requires Children(call, origin) == Some(below)
    ensures EveryLeafAllowed(call, origin) <==>
            forall i :: 0 <= i < |below| ==> EveryLeafAllowed(below[i], origin)
  {
    if EveryLeafAllowed(call, origin) {
      forall i, path | 0 <= i < |below| && LeafAt(below[i], origin, path).Some?
        ensures LeafAllowed(LeafAt(below[i], origin, path).value, origin)
      {
        assert ([i] + path)[1..] == path;
        assert LeafAt(call, origin, [i] + path) == LeafAt(below[i], origin, path);
      }
    }
    if forall i :: 0 <= i < |below| ==> EveryLeafAllowed(below[i], origin) {
      forall path | LeafAt(call, origin, path).Some?
        ensures LeafAllowed(LeafAt(call, origin, path).value, origin)
      {
        assert LeafAt(call, origin, path) == LeafAt(below[path[0]], origin, path[1..]);
      }
    }
  }

  /** A call tree is accepted exactly when every leaf reached through the wrappers is allowed. */
  lemma {:induction false} AcceptsIffLeavesAllowed(call: Call, origin: nat)
    ensures Accepts(call, origin) <==> EveryLeafAllowed(call, origin)
    decreases call
  {
    match Children(call, origin)
    case None =>
      assert LeafAt(call, origin, []) == Some(call);
    case Some(below) =>
      AcceptsIffChildren(call, origin, below);
      forall i | 0 <= i < |below|
        ensures Accepts(below[i], origin) <==> EveryLeafAllowed(below[i], origin)
      {
        AcceptsIffLeavesAllowed(below[i], origin);
      }
      LeavesOfChildren(call, origin, below);
  }

  // ----- Origins -----

  /** Whether a sudo call is reached without passing through one. */
  predicate ReachesSudo(call: Call)
    decreases call
  {
    match call
    case Sudo(_, _) => true
    case OtherSudo(_) => true
    case Wrapper(_, inner) => ReachesSudo(inner)
    case Batch(_, calls) => exists i :: 0 <= i < |calls| && ReachesSudo(calls[i])
    case _ => false
  }

  /** An account other than the first gets through exactly what the first account does, less
      everything that reaches sudo. So those accounts all agree, and none gets more than the first. */
  lemma {:induction false} OriginsCompare(call: Call, origin: nat)
    requires origin != 0
    ensures Accepts(call, origin) <==> Accepts(call, 0) && !ReachesSudo(call)
    decreases call
  {
    match call
    case Wrapper(_, inner) => OriginsCompare(inner, origin);
    case Batch(_, calls) =>
      forall i | 0 <= i < |calls|
        ensures Accepts(calls[i], origin) <==> Accepts(calls[i], 0) && !ReachesSudo(calls[i])
      {
        OriginsCompare(calls[i], origin);
      }
    case _ =>
  }

  // ----- Rewriting a tree without changing the verdict -----

  /** Removes the wrappers, and sudo too where `sudo` says so. */
  function Strip(call: Call, sudo: bool): Call
    decreases call
  {
    match call
    case Sudo(k, inner) => if sudo then Strip(inner, sudo) else Sudo(k, Strip(inner, sudo))
    case Wrapper(_, inner) => Strip(inner, sudo)
    case Batch(k, calls) => Batch(k, seq(|calls|, i requires 0 <= i < |calls| => Strip(calls[i], sudo)))
    case _ => call
  }

  /** No wrapper is left at any depth, and no sudo where that was removed too. */
  predicate IsBare(call: Call, sudo: bool)
    decreases call
  {
    match call
    case Sudo(_, inner) => !sudo && IsBare(inner, sudo)
    case Wrapper(_, _) => false
    case Batch(_, calls) => forall i :: 0 <= i < |calls| ==> IsBare(calls[i], sudo)
    case _ => true
  }

  /** Removing the wrappers leaves none, and changes nothing where there is none. */
  lemma {:induction false} StripIsBare(call: Call, sudo: bool)
    ensures IsBare(Strip(call, sudo), sudo)
    ensures IsBare(call, sudo) ==> Strip(call, sudo) == call
    decreases call
  {
    match call
    case Sudo(_, inner) => StripIsBare(inner, sudo);
    case Wrapper(_, inner) => StripIsBare(inner, sudo);
    case Batch(k, calls) =>
      var stripped := seq(|calls|, i requires 0 <= i < |calls| => Strip(calls[i], sudo));
      assert Strip(call, sudo) == Batch(k, stripped);
      forall i | 0 <= i < |calls|
        ensures IsBare(stripped[i], sudo) && (IsBare(calls[i], sudo) ==> stripped[i] == calls[i])
      {
        StripIsBare(calls[i], sudo);
      }
      if IsBare(call, sudo) {
        assert stripped == calls;
      }
    case _ =>
  }

  /** Removing the wrappers keeps the verdict; for the first account so does removing sudo. */
  lemma {:induction false} StripKeepsVerdict(call: Call, origin: nat, sudo: bool)
    requires sudo ==> origin == 0
    ensures Accepts(Strip(call, sudo), origin) <==> Accepts(call, origin)
    decreases call
  {
    match call
    case Sudo(_, inner) => StripKeepsVerdict(inner, origin, sudo);
    case Wrapper(_, inner) => StripKeepsVerdict(inner, origin, sudo);
    case Batch(k, calls) =>
      var stripped := seq(|calls|, i requires 0 <= i < |calls| => Strip(calls[i], sudo));
      assert Strip(call, sudo) == Batch(k, stripped);
      forall i | 0 <= i < |calls|
        ensures Accepts(stripped[i], origin) <==> Accepts(calls[i], origin)
      {
        StripKeepsVerdict(calls[i], origin, sudo);
      }
      assert forall i :: 0 <= i < |calls| ==> (Accepts(stripped[i], origin) <==> Accepts(calls[i], origin));
    case _ =>
  }

  /** The calls of nested batches, spliced into one list in order. */
  function Splice(call: Call): seq<Call>
    decreases call, 1
  {
    match call
    case Batch(_, calls) => SpliceAll(calls)
    case _ => [call]
  }

  function SpliceAll(calls: seq<Call>): seq<Call>
    decreases calls, 0
  {
    if calls == [] then [] else Splice(calls[0]) + SpliceAll(calls[1..])
  }

  lemma {:induction false} SpliceAllIsFlat(calls: seq<Call>)
    ensures forall c :: c in SpliceAll(calls) ==> !c.Batch?
    decreases calls, 0
  {
    if calls == [] {
    } else {
      SpliceIsFlat(calls[0]);
      SpliceAllIsFlat(calls[1..]);
    }
  }

  /** No batch is left in the list, and a call that is no batch is passed on alone. */
  lemma {:induction false} SpliceIsFlat(call: Call)
    ensures forall c :: c in Splice(call) ==> !c.Batch?
    ensures !call.Batch? ==> Splice(call) == [call]
    decreases call, 1
  {
    match call
    case Batch(_, calls) => SpliceAllIsFlat(calls);
    case _ =>
  }

  lemma AcceptsAllConcat(left: seq<Call>, right: seq<Call>, origin: nat)
    ensures AcceptsAll(left + right, origin) <==> AcceptsAll(left, origin) && AcceptsAll(right, origin)
  {
    assert forall i :: 0 <= i < |left| ==> left[i] == (left + right)[i];
    assert forall i :: 0 <= i < |right| ==> right[i] == (left + right)[|left| + i];
  }

  /** Splicing nested batches of any kind into one batch of any kind keeps the verdict. */
  lemma {:induction false} SpliceKeepsVerdict(call: Call, origin: nat, k: BatchKind)
    ensures Accepts(Batch(k, Splice(call)), origin) <==> Accepts(call, origin)
    decreases call, 1
  {
    match call
    case Batch(_, calls) => SpliceAllKeepsVerdict(calls, origin);
    case _ =>
      assert Splice(call)[0] == call;
      AcceptsIffChildren(Batch(k, [call]), origin, [call]);
  }

  lemma {:induction false} SpliceAllKeepsVerdict(calls: seq<Call>, origin: nat)
    ensures AcceptsAll(SpliceAll(calls), origin) <==> AcceptsAll(calls, origin)
    decreases calls, 0
  {
    if calls == [] {
    } else {
      SpliceKeepsVerdict(calls[0], origin, PlainBatch);
      SpliceAllKeepsVerdict(calls[1..], origin);
      AcceptsAllConcat(Splice(calls[0]), SpliceAll(calls[1..]), origin);
      AcceptsAllConcat([calls[0]], calls[1..], origin);
      assert [calls[0]] + calls[1..] == calls;
    }
  }
}
