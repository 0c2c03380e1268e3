/** The fuzzer's check of the account ledger after a run. */
module LedgerCheck {
  import opened Common
  import opened Sums

  /** An account with its balance locks and its holds. */
  datatype Info = Info(consumers: u32, providers: u32, free: u128, reserved: u128, frozen: u128,
                       locks: seq<u128>, holds: seq<u128>)

  type Ledger = map<Account, Info>

  datatype Verdict =
    | Passed
    | InvalidReferenceCounts
    | FrozenMismatch
    | HoldsExceedReserved
    | IssuanceMismatch
    | IssuanceGrew
    | ArithmeticOverflow

  // ----- What the ledger should satisfy -----

  function FreeIn(ledger: Ledger): Account -> nat { a => if a in ledger then ledger[a].free else 0 }

  function ReservedIn(ledger: Ledger): Account -> nat { a => if a in ledger then ledger[a].reserved else 0 }

  ghost function TotalFree(ledger: Ledger): nat { SetSum(ledger.Keys, FreeIn(ledger)) }

  ghost function TotalReserved(ledger: Ledger): nat { SetSum(ledger.Keys, ReservedIn(ledger)) }

  function Amount(n: u128): nat { n }

  /** The sum of the holds of an account. */
  function Held(info: Info): nat { SeqSum(info.holds, Amount) }

  ghost predicate IsLargest(m: u128, s: seq<u128>) {
    if s == [] then m == 0 else m in s && forall x :: x in s ==> x <= m
  }

  /** What a `u128` shows of a sum under either treatment of overflow. */
  function Shown(exact: nat, overflow: Overflow): nat {
    if overflow.Checked? then exact else Wrap128(exact)
  }

  ghost predicate LocksAndHoldsSound(info: Info, overflow: Overflow) {
    IsLargest(info.frozen, info.locks) && Shown(Held(info), overflow) <= info.reserved
  }

  ghost predicate AccountSound(info: Info, overflow: Overflow) {
    && !(info.consumers > 0 && info.providers == 0)
    && LocksAndHoldsSound(info, overflow)
  }

  /** With `Checked`, the ledger invariant itself. With `Wrapping`, the invariant up to multiples of
      2^128 in the sums. */
  ghost predicate Sound(ledger: Ledger, issuance: u128, initial: u128, overflow: Overflow) {
    && (forall a :: a in ledger ==> AccountSound(ledger[a], overflow))
    && issuance == Shown(TotalFree(ledger) + TotalReserved(ledger), overflow)
    && issuance <= initial
  }

  /** What each failed assertion on an account says of it. */
  ghost predicate AccountFault(v: Verdict, info: Info, overflow: Overflow) {
    match v
    case InvalidReferenceCounts => info.consumers > 0 && info.providers == 0
    case FrozenMismatch => !IsLargest(info.frozen, info.locks)
    case HoldsExceedReserved => Shown(Held(info), overflow) > info.reserved
    case ArithmeticOverflow => overflow.Checked? && Held(info) >= U128_LIMIT
    case _ => false
  }

  /** The verdict is true of the ledger: it names a fault of some account or of the totals. */
  ghost predicate Justified(v: Verdict, ledger: Ledger, issuance: u128, initial: u128, overflow: Overflow) {
    var total := TotalFree(ledger) + TotalReserved(ledger);
    || v == Passed
    || (exists a :: a in ledger && AccountFault(v, ledger[a], overflow))
    || (v == ArithmeticOverflow && overflow.Checked? && total >= U128_LIMIT)
    || (v == IssuanceMismatch && issuance != Shown(total, overflow))
    || (v == IssuanceGrew && issuance > initial)
  }

  // ----- The code -----

  lemma WrapStep(exact: nat, b: u128)
    ensures var n := Wrap128(exact) + b;
            Wrap128(exact + b) == if n < U128_LIMIT then n else n - U128_LIMIT
  {
  }

  /** Adds in 128 bits; `None` where the addition panics. */
  method AddBalance(a: u128, b: u128, overflow: Overflow, ghost exact: nat) returns (sum: Option<u128>)
    requires a == Shown(exact, overflow)
    ensures sum.None? <==> overflow.Checked? && exact + b >= U128_LIMIT
    ensures sum.Some? ==> sum.value == Shown(exact + b, overflow)
  {
    var n := a + b;
    if n < U128_LIMIT {
      sum := Some(n);
    } else if overflow.Checked? {
      sum := None;
    } else {
      sum := Some(n - U128_LIMIT);
    }
    WrapStep(exact, b);
  }

  method LargestLock(locks: seq<u128>) returns (m: u128)
    ensures IsLargest(m, locks)
  {
    m := 0;
    for i := 0 to |locks|
      invariant IsLargest(m, locks[..i])
    {
      if i == 0 || locks[i] > m {
        m := locks[i];
      }
      assert locks[..i + 1] == locks[..i] + [locks[i]];
    }
    assert locks[..|locks|] == locks;
  }

  method SumOfHolds(info: Info, overflow: Overflow) returns (sum: Option<u128>)
    ensures sum.None? ==> overflow.Checked? && Held(info) >= U128_LIMIT
    ensures sum.Some? ==> sum.value == Shown(Held(info), overflow)
  {
    var holds := info.holds;
    var total: u128 := 0;
    for i := 0 to |holds|
      invariant total == Shown(SeqSum(holds[..i], Amount), overflow)
    {
      SeqSumSnoc(holds, Amount, i);
      var next := AddBalance(total, holds[i], overflow, SeqSum(holds[..i], Amount));
      if next.None? {
        SeqSumGrows(holds, Amount, i + 1);
        return None;
      }
      total := next.value;
    }
    assert holds[..|holds|] == holds;
    return Some(total);
  }

  lemma LargestIsUnique(m: u128, n: u128, s: seq<u128>)
    requires IsLargest(m, s)
    ensures IsLargest(n, s) ==> m == n
  {
  }

  method CheckLocksAndHolds(info: Info, overflow: Overflow) returns (v: Verdict)
    ensures v == Passed <==> LocksAndHoldsSound(info, overflow)
    ensures v == Passed || AccountFault(v, info, overflow)
  {
    var maxLock := LargestLock(info.locks);
    if maxLock != info.frozen {
      LargestIsUnique(maxLock, info.frozen, info.locks);
      return FrozenMismatch;
    }
    var sumHolds := SumOfHolds(info, overflow);
    if sumHolds.None? {
      return ArithmeticOverflow;
    }
    if sumHolds.value > info.reserved {
      return HoldsExceedReserved;
    }
    return Passed;
  }

  /** Adds the balance of the account at `i` to what was counted before it. */
  method Count(order: seq<Account>, i: nat, ghost f: Account -> nat, counted: u128, balance: u128, overflow: Overflow)
    returns (sum: Option<u128>)
    requires i < |order| && counted == Shown(SeqSum(order[..i], f), overflow) && balance == f(order[i])
    ensures sum.None? ==> overflow.Checked? && SeqSum(order, f) >= U128_LIMIT
    ensures sum.Some? ==> sum.value == Shown(SeqSum(order[..i + 1], f), overflow)
  {
    SeqSumSnoc(order, f, i);
    SeqSumGrows(order, f, i + 1);
    sum := AddBalance(counted, balance, overflow, SeqSum(order[..i], f));
  }

  /** The assertions on the account at `i`, with the balances counted on the way. */
  method CheckAccount(ledger: Ledger, order: seq<Account>, i: nat, free: u128, reserved: u128, overflow: Overflow)
    returns (v: Verdict, free': u128, reserved': u128)
    requires i < |order| && order[i] in ledger
    requires free == Shown(SeqSum(order[..i], FreeIn(ledger)), overflow)
    requires reserved == Shown(SeqSum(order[..i], ReservedIn(ledger)), overflow)
    ensures v == Passed ==>
              && AccountSound(ledger[order[i]], overflow)
              && free' == Shown(SeqSum(order[..i + 1], FreeIn(ledger)), overflow)
              && reserved' == Shown(SeqSum(order[..i + 1], ReservedIn(ledger)), overflow)
    ensures v != Passed && AccountSound(ledger[order[i]], overflow) ==> v == ArithmeticOverflow
    ensures v != Passed ==>
              || AccountFault(v, ledger[order[i]], overflow)
              || (v == ArithmeticOverflow && overflow.Checked?
                  && SeqSum(order, FreeIn(ledger)) + SeqSum(order, ReservedIn(ledger)) >= U128_LIMIT)
  {
    free', reserved' := free, reserved;
    var info := ledger[order[i]];
    if info.consumers > 0 && info.providers == 0 {
      return InvalidReferenceCounts, free, reserved;
    }
    var nextFree := Count(order, i, FreeIn(ledger), free, info.free, overflow);
    if nextFree.None? {
      return ArithmeticOverflow, free, reserved;
    }
    var nextReserved := Count(order, i, ReservedIn(ledger), reserved, info.reserved, overflow);
    if nextReserved.None? {
      return ArithmeticOverflow, free, reserved;
    }
    v := CheckLocksAndHolds(info, overflow);
    return v, nextFree.value, nextReserved.value;
  }

  lemma ShownAgain(a: nat, b: nat)
    ensures Wrap128(a + Wrap128(b)) == Wrap128(a + b)
  {
  }

  method CheckIssuance(ghost ledger: Ledger, free: u128, reserved: u128, issuance: u128, initial: u128, overflow: Overflow)
    returns (v: Verdict)
    requires free == Shown(TotalFree(ledger), overflow) && reserved == Shown(TotalReserved(ledger), overflow)
    ensures v == Passed <==>
            issuance == Shown(TotalFree(ledger) + TotalReserved(ledger), overflow) && issuance <= initial
    ensures Justified(v, ledger, issuance, initial, overflow)
  {
    var counted := AddBalance(free, reserved, overflow, TotalFree(ledger));
    ShownAgain(TotalFree(ledger), TotalReserved(ledger));
    if counted.None? {
      return ArithmeticOverflow;
    }
    if issuance != counted.value {
      return IssuanceMismatch;
    }
    if issuance > initial {
      return IssuanceGrew;
    }
    return Passed;
  }

  /** A fault of one account is a fault of the ledger. */
  lemma FaultStands(v: Verdict, ledger: Ledger, a: Account, issuance: u128, initial: u128, overflow: Overflow)
    requires a in ledger
    requires || AccountFault(v, ledger[a], overflow)
             || (v == ArithmeticOverflow && overflow.Checked? && TotalFree(ledger) + TotalReserved(ledger) >= U128_LIMIT)
    ensures !Sound(ledger, issuance, initial, overflow)
    ensures Justified(v, ledger, issuance, initial, overflow)
  {
  }

  lemma AllAccountsSound(ledger: Ledger, order: seq<Account>, overflow: Overflow)
    requires Enumerates(order, ledger.Keys)
    requires forall j :: 0 <= j < |order| ==> AccountSound(ledger[order[j]], overflow)
    ensures forall a :: a in ledger ==> AccountSound(ledger[a], overflow)
  {
  }

  /** The verdict is `Passed` exactly on sound ledgers, in whatever order the accounts come, and any other
      verdict names a fault of the ledger. */
  method CheckInvariants(ledger: Ledger, order: seq<Account>, issuance: u128, initial: u128, overflow: Overflow)
    returns (v: Verdict)
    requires Enumerates(order, ledger.Keys)
    ensures v == Passed <==> Sound(ledger, issuance, initial, overflow)
    ensures Justified(v, ledger, issuance, initial, overflow)
  {
    var countedFree: u128, countedReserved: u128 := 0, 0;
    SeqSumIsSetSum(order, ledger.Keys, FreeIn(ledger));
    SeqSumIsSetSum(order, ledger.Keys, ReservedIn(ledger));
    for i := 0 to |order|
      invariant forall j :: 0 <= j < i ==> AccountSound(ledger[order[j]], overflow)
      invariant countedFree == Shown(SeqSum(order[..i], FreeIn(ledger)), overflow)
      invariant countedReserved == Shown(SeqSum(order[..i], ReservedIn(ledger)), overflow)
    {
      v, countedFree, countedReserved := CheckAccount(ledger, order, i, countedFree, countedReserved, overflow);
      if v != Passed {
        FaultStands(v, ledger, order[i], issuance, initial, overflow);
        return;
      }
    }
    assert order[..|order|] == order;
    AllAccountsSound(ledger, order, overflow);
    v := CheckIssuance(ledger, countedFree, countedReserved, issuance, initial, overflow);
  }

  // ----- What the wrapping check is worth -----

  /** Whether every sum the check forms fits 128 bits. */
  ghost predicate SumsFit(ledger: Ledger) {
    && TotalFree(ledger) + TotalReserved(ledger) < U128_LIMIT
    && forall a :: a in ledger ==> Held(ledger[a]) < U128_LIMIT
  }

  lemma ShownExactly(exact: nat, n: u128)
    ensures exact == n <==> Wrap128(exact) == n && exact < U128_LIMIT
    ensures exact <= n <==> Wrap128(exact) <= n && exact < U128_LIMIT
  {
  }

  /** A ledger is sound exactly when the wrapping check passes and no sum overflows. */
  lemma WrappingCheckMeaning(ledger: Ledger, issuance: u128, initial: u128)
    ensures Sound(ledger, issuance, initial, Checked) <==>
            Sound(ledger, issuance, initial, Wrapping) && SumsFit(ledger)
  {
    ShownExactly(TotalFree(ledger) + TotalReserved(ledger), issuance);
    forall a | a in ledger
      ensures AccountSound(ledger[a], Checked) <==>
              AccountSound(ledger[a], Wrapping) && Held(ledger[a]) < U128_LIMIT
    {
      ShownExactly(Held(ledger[a]), ledger[a].reserved);
    }
  }

  lemma SumOverTwo(ledger: Ledger, f: Account -> nat)
    requires ledger.Keys == {0, 1}
    ensures SetSum(ledger.Keys, f) == f(0) + f(1)
  {
    var first: set<Account> := {0};
    SetSumAdd<Account>({}, f, 0);
    SetSumAdd<Account>(first, f, 1);
    assert {} + {0} == first && first + {1} == ledger.Keys;
  }

  /** Without overflow checks, two accounts that together hold 2^128 pass as an issuance of zero. */
  lemma WrappingCheckIsFooled()
    ensures var info := Info(0, 1, 0x8000_0000_0000_0000_0000_0000_0000_0000, 0, 0, [], []);
            var ledger: Ledger := map[0 := info, 1 := info];
            Sound(ledger, 0, 0, Wrapping) && !Sound(ledger, 0, 0, Checked)
  {
    var info := Info(0, 1, 0x8000_0000_0000_0000_0000_0000_0000_0000, 0, 0, [], []);
    var ledger: Ledger := map[0 := info, 1 := info];
    SumOverTwo(ledger, FreeIn(ledger));
    SumOverTwo(ledger, ReservedIn(ledger));
  }
}
