/** Asset credits handed to the block author. */
module Credits {
  import opened Common
  import opened Sums

  type AssetId = nat
  type Balances = map<(AssetId, Account), nat>

  /** An amount of an asset that has been taken out of circulation and not yet been put back. */
  datatype Credit = Credit(asset: AssetId, amount: nat)

  datatype Book = Book(balances: Balances, issuance: map<AssetId, nat>, credits: seq<Credit>)

  function BalanceIn(balances: Balances, asset: AssetId, who: Account): nat {
    if (asset, who) in balances then balances[(asset, who)] else 0
  }

  function IssuanceIn(issuance: map<AssetId, nat>, asset: AssetId): nat {
    if asset in issuance then issuance[asset] else 0
  }

  /** `n - m`, or zero where that is negative. */
  function MinusAtMost(n: nat, m: nat): nat { if m <= n then n - m else 0 }

  function Without(credits: seq<Credit>, i: nat): seq<Credit>
    requires i < |credits|
  {
    credits[..i] + credits[i + 1..]
  }

  // ----- The steps -----

  /** Everything that moves an amount. `Handle` settles the credit at `i`; `resolvable` says whether
      the author's account can take it. */
  datatype Step =
    | Issue(asset: AssetId, amount: nat)
    | Withdraw(asset: AssetId, who: Account, amount: nat)
    | Handle(i: nat, author: Option<Account>, resolvable: bool)

  /** The author receives the credit; without an author, or if the account cannot take it, the credit
      is dropped and the issuance shrinks by it. */
  function Settled(b: Book, i: nat, author: Option<Account>, resolvable: bool): Book
    requires i < |b.credits|
  {
    var c := b.credits[i];
    var rest := Without(b.credits, i);
    if author.Some? && resolvable then
      Book(b.balances[(c.asset, author.value) := BalanceIn(b.balances, c.asset, author.value) + c.amount],
           b.issuance, rest)
    else
      var before := IssuanceIn(b.issuance, c.asset);
      Book(b.balances, b.issuance[c.asset := MinusAtMost(before, c.amount)], rest)
  }

  function Apply(b: Book, step: Step): Book {
    match step
    case Issue(asset, amount) =>
      Book(b.balances, b.issuance[asset := IssuanceIn(b.issuance, asset) + amount], b.credits + [Credit(asset, amount)])
    case Withdraw(asset, who, amount) =>
      var balance := BalanceIn(b.balances, asset, who);
      if amount > balance then b
      else Book(b.balances[(asset, who) := balance - amount], b.issuance, b.credits + [Credit(asset, amount)])
    case Handle(i, author, resolvable) =>
      if i < |b.credits| then Settled(b, i, author, resolvable) else b
  }

  function Run(b: Book, steps: seq<Step>): Book {
    if steps == [] then b else Apply(Run(b, steps[..|steps| - 1]), steps[|steps| - 1])
  }

  // ----- The code -----

  class AssetsToBlockAuthor {
    var balances: Balances
    var issuance: map<AssetId, nat>
    var credits: seq<Credit>

    constructor (b: Book)
      ensures State() == b
    {
      balances, issuance, credits := b.balances, b.issuance, b.credits;
    }

    function State(): Book
      reads this
    {
      Book(balances, issuance, credits)
    }

    /** Puts a credit into an account, or hands it back. */
    method Resolve(who: Account, credit: Credit, resolvable: bool) returns (dropped: Option<Credit>)
      modifies this`balances
      ensures dropped == if resolvable then None else Some(credit)
      ensures balances == if resolvable
                          then old(balances)[(credit.asset, who) := BalanceIn(old(balances), credit.asset, who) + credit.amount]
                          else old(balances)
    {
      if !resolvable {
        return Some(credit);
      }
      balances := balances[(credit.asset, who) := BalanceIn(balances, credit.asset, who) + credit.amount];
      return None;
    }

    /** The credit at `i` goes to the author if there is one whose account can take it; otherwise it is
        dropped, and the issuance of its asset shrinks by it, down to zero at most. Nothing else changes. */
    method HandleCredit(i: nat, author: Option<Account>, resolvable: bool)
      requires i < |credits|
      modifies this
      ensures State() == Settled(old(State()), i, author, resolvable)
      ensures credits == old(credits)[..i] + old(credits)[i + 1..]
      ensures forall asset: AssetId, who: Account :: BalanceIn(balances, asset, who) ==
                BalanceIn(old(balances), asset, who)
                + if resolvable && author == Some(who) && asset == old(credits)[i].asset
                  then old(credits)[i].amount else 0
      ensures author.Some? && resolvable ==> issuance == old(issuance)
      ensures !(author.Some? && resolvable) ==>
                forall asset: AssetId :: IssuanceIn(issuance, asset) ==
                  if asset == old(credits)[i].asset
                  then MinusAtMost(IssuanceIn(old(issuance), asset), old(credits)[i].amount)
                  else IssuanceIn(old(issuance), asset)
    {
      var credit := credits[i];
      credits := credits[..i] + credits[i + 1..];
      var dropped := Some(credit);
      if author.Some? {
        dropped := Resolve(author.value, credit, resolvable);
      }
      if dropped.Some? {
        var before := IssuanceIn(issuance, credit.asset);
        issuance := issuance[credit.asset := MinusAtMost(before, credit.amount)];
      }
    }
  }

  // ----- Conservation -----

  function OfAsset(balances: Balances, asset: AssetId): ((AssetId, Account)) -> nat {
    (k: (AssetId, Account)) => if k in balances && k.0 == asset then balances[k] else 0
  }

  ghost function TotalBalance(balances: Balances, asset: AssetId): nat {
    SetSum(balances.Keys, OfAsset(balances, asset))
  }

  function AmountOf(asset: AssetId): Credit -> nat { (c: Credit) => if c.asset == asset then c.amount else 0 }

  /** The credit of an asset still outstanding. */
  function Outstanding(credits: seq<Credit>, asset: AssetId): nat { SeqSum(credits, AmountOf(asset)) }

  /** Whatever has been issued of an asset is in an account or in a credit. */
  ghost predicate Conserved(b: Book) {
    forall asset :: IssuanceIn(b.issuance, asset) == TotalBalance(b.balances, asset) + Outstanding(b.credits, asset)
  }

  lemma SetBalance(balances: Balances, asset: AssetId, who: Account, n: nat, of: AssetId)
    ensures TotalBalance(balances[(asset, who) := n], of)
            == TotalBalance(balances, of) + if of == asset then n - BalanceIn(balances, asset, who) else 0
  {
    var key, after := (asset, who), balances[(asset, who) := n];
    var others := balances.Keys - {key};
    var f, g := OfAsset(balances, of), OfAsset(after, of);
    assert after.Keys == others + {key};
    SetSumAdd(others, g, key);
    SetSumCongruent(others, f, g);
    if key in balances {
      SetSumRemove(balances.Keys, f, key);
    } else {
      assert others == balances.Keys;
    }
  }

  lemma OutstandingSnoc(credits: seq<Credit>, c: Credit, of: AssetId)
    ensures Outstanding(credits + [c], of) == Outstanding(credits, of) + if c.asset == of then c.amount else 0
  {
    assert (credits + [c])[..|credits|] == credits;
  }

  lemma {:induction false} OutstandingWithout(credits: seq<Credit>, i: nat, of: AssetId)
    requires i < |credits|
    ensures Outstanding(credits, of)
            == Outstanding(Without(credits, i), of) + if credits[i].asset == of then credits[i].amount else 0
    decreases |credits|
  {
    var n := |credits| - 1;
    var front, last := credits[..n], credits[n];
    assert credits == front + [last];
    if i == n {
      assert Without(credits, i) == front;
    } else {
      OutstandingWithout(front, i, of);
      assert Without(credits, i) == Without(front, i) + [last];
      OutstandingSnoc(Without(front, i), last, of);
    }
    OutstandingSnoc(front, last, of);
  }

  lemma SettlingConserves(b: Book, i: nat, author: Option<Account>, resolvable: bool, asset: AssetId)
    requires Conserved(b) && i < |b.credits|
    ensures var now := Settled(b, i, author, resolvable);
            IssuanceIn(now.issuance, asset) == TotalBalance(now.balances, asset) + Outstanding(now.credits, asset)
  {
    var c := b.credits[i];
    OutstandingWithout(b.credits, i, asset);
    if author.Some? && resolvable {
      SetBalance(b.balances, c.asset, author.value, BalanceIn(b.balances, c.asset, author.value) + c.amount, asset);
    }
  }

  /** In a book that is conserved no drop reaches zero early: the issuance covers every credit. */
  lemma IssuanceCoversCredits(b: Book, i: nat)
    requires Conserved(b) && i < |b.credits|
    ensures b.credits[i].amount <= IssuanceIn(b.issuance, b.credits[i].asset)
  {
    OutstandingWithout(b.credits, i, b.credits[i].asset);
  }

  /** No step creates or loses an amount. */
  lemma StepConserves(b: Book, step: Step)
    requires Conserved(b)
    ensures Conserved(Apply(b, step))
  {
    var now := Apply(b, step);
    forall asset: AssetId
      ensures IssuanceIn(now.issuance, asset) == TotalBalance(now.balances, asset) + Outstanding(now.credits, asset)
    {
      match step
      case Issue(a, amount) =>
        OutstandingSnoc(b.credits, Credit(a, amount), asset);
      case Withdraw(a, who, amount) =>
        OutstandingSnoc(b.credits, Credit(a, amount), asset);
        if amount <= BalanceIn(b.balances, a, who) {
          SetBalance(b.balances, a, who, BalanceIn(b.balances, a, who) - amount, asset);
        }
      case Handle(i, author, resolvable) =>
        if i < |b.credits| {
          SettlingConserves(b, i, author, resolvable, asset);
        }
    }
  }

  /** Over every run the issuance is what is in accounts and in credits; once all credits have been
      handled, it is what is in accounts. */
  lemma {:induction false} RunConserves(b: Book, steps: seq<Step>)
    requires Conserved(b)
    ensures Conserved(Run(b, steps))
    ensures Run(b, steps).credits == [] ==>
              forall asset :: IssuanceIn(Run(b, steps).issuance, asset) == TotalBalance(Run(b, steps).balances, asset)
  {
    if steps == [] {
    } else {
      var front := steps[..|steps| - 1];
      RunConserves(b, front);
      StepConserves(Run(b, front), steps[|steps| - 1]);
    }
  }
}
