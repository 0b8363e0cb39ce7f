/** Supply is conserved in every reachable state, which is what makes the unchecked arithmetic safe. */
module Conservation {
  import opened Prelude
  import opened Roles
  import opened Registry
  import opened Token
  import opened Ledger

  /** The balances of addresses below n, added up. */
  ghost function SumTo(m: map<Address, Word>, n: nat): int
    requires n <= ADDRESS_LIMIT
  {
    if n == 0 then 0 else SumTo(m, n - 1) + Get(m, n - 1)
  }

  /** The balances of all addresses, added up. */
  ghost function Total(m: map<Address, Word>): int {
    SumTo(m, ADDRESS_LIMIT)
  }

  lemma {:induction false} SumOfUpdate(m: map<Address, Word>, k: Address, x: Word, n: nat)
    requires n <= ADDRESS_LIMIT
    ensures SumTo(m[k := x], n) == SumTo(m, n) + if k < n then x - Get(m, k) else 0
  {
    if n == 0 {
    } else {
      SumOfUpdate(m, k, x, n - 1);
    }
  }

  lemma {:induction false} SumOfNothing(n: nat)
    requires n <= ADDRESS_LIMIT
    ensures SumTo(map[], n) == 0
  {
    if n == 0 {
    } else {
      SumOfNothing(n - 1);
    }
  }

  lemma {:induction false} SumBounds(m: map<Address, Word>, a: Address, b: Address, n: nat)
    requires n <= ADDRESS_LIMIT
    ensures 0 <= SumTo(m, n)
    ensures a < n ==> Get(m, a) <= SumTo(m, n)
    ensures a < n && b < n && a != b ==> Get(m, a) + Get(m, b) <= SumTo(m, n)
    decreases n
  {
    if n == 0 {
    } else {
      SumBounds(m, a, b, n - 1);
      SumBounds(m, b, a, n - 1);
    }
  }

  /** Everything minted by the transactions that committed. */
  function Minted(v: Verifier, w: World, txs: seq<Tx>): int {
    if |txs| == 0 then 0 else
      var n := |txs| - 1;
      var tx := txs[n];
      Minted(v, w, txs[..n]) +
      if tx.call.Mint? && Execute(v, Run(v, w, txs[..n]), tx).Ok? then tx.call.amount else 0
  }

  ghost predicate Conserved(t: TokenState) {
    Total(t.balances) == t.totalSupply
  }

  /** The balances change by exactly the amount moved; a self-transfer changes none. */
  ghost predicate ExactMove(before: map<Address, Word>, after: map<Address, Word>, from: Address, to: Address,
                            amount: Word) {
    && amount <= Get(before, from)
    && (from != to ==> Get(after, from) == Get(before, from) - amount && Get(after, to) == Get(before, to) + amount)
    && (from == to ==> Get(after, from) == Get(before, from))
    && (forall a: Address :: a != from && a != to ==> Get(after, a) == Get(before, a))
  }

  lemma NoWrap(x: int)
    requires 0 <= x < WORD_LIMIT
    ensures Wrap(x) == x
  {
  }

  /** With the total below 2^256, neither unchecked operation wraps. */
  lemma MoveIsExact(balances: map<Address, Word>, from: Address, to: Address, amount: Word)
    requires amount <= Get(balances, from) && Total(balances) < WORD_LIMIT
    ensures ExactMove(balances, Moved(balances, from, to, amount), from, to, amount)
  {
    var less := Get(balances, from) - amount;
    NoWrap(less);
    var held := Get(balances[from := less], to);
    assert 0 <= held + amount < WORD_LIMIT by {
      SumBounds(balances, from, to, ADDRESS_LIMIT);
    }
    NoWrap(held + amount);
  }

  lemma MoveKeepsTotal(balances: map<Address, Word>, from: Address, to: Address, amount: Word)
    requires amount <= Get(balances, from) && Total(balances) < WORD_LIMIT
    ensures Total(Moved(balances, from, to, amount)) == Total(balances)
  {
    MoveIsExact(balances, from, to, amount);
    var less := Wrap(Get(balances, from) - amount);
    var debited := balances[from := less];
    SumOfUpdate(balances, from, less, ADDRESS_LIMIT);
    SumOfUpdate(debited, to, Wrap(Get(debited, to) + amount), ADDRESS_LIMIT);
  }

  /** The second checked addition in mint is never the one that fails. */
  lemma MintCreditFits(t: TokenState, to: Address, amount: Word)
    requires Conserved(t) && t.totalSupply + amount < WORD_LIMIT
    ensures Get(t.balances, to) + amount < WORD_LIMIT
  {
    SumBounds(t.balances, to, to, ADDRESS_LIMIT);
  }

  lemma SpendKeepsBalances(s: TokenState, holder: Address, spender: Address, amount: Word)
    ensures var r := SpendSpec(s, holder, spender, amount);
            r.Ok? ==> r.value.balances == s.balances && r.value.totalSupply == s.totalSupply
  {
  }

  lemma MintKeeps(reg: RegistryState, s: TokenState, caller: Caller, now: Word, to: Address, amount: Word)
    requires Conserved(s)
    ensures var r := MintSpec(reg, s, caller, now, to, amount);
            r.Ok? ==> Conserved(r.value.state) && r.value.state.totalSupply == s.totalSupply + amount
  {
    if MintSpec(reg, s, caller, now, to, amount).Ok? {
      SumOfUpdate(s.balances, to, Get(s.balances, to) + amount, ADDRESS_LIMIT);
    }
  }

  lemma MoveKeeps(reg: RegistryState, s: TokenState, now: Word, from: Address, to: Address, amount: Word)
    requires Conserved(s)
    ensures var r := MoveSpec(reg, s, now, from, to, amount);
            r.Ok? ==> Conserved(r.value.state) && r.value.state.totalSupply == s.totalSupply
  {
    if MoveSpec(reg, s, now, from, to, amount).Ok? {
      MoveKeepsTotal(s.balances, from, to, amount);
    }
  }

  /** One transaction keeps supply conserved, and grows it by what it mints. */
  lemma StepConserves(v: Verifier, w: World, tx: Tx)
    requires Conserved(w.token)
    ensures Conserved(Step(v, w, tx).token)
    ensures Step(v, w, tx).token.totalSupply
            == w.token.totalSupply + if tx.call.Mint? && Execute(v, w, tx).Ok? then tx.call.amount else 0
  {
    match tx.call {
      case Mint(to, amount) => MintKeeps(w.registry, w.token, tx.caller, tx.now, to, amount);
      case Send(to, amount) => MoveKeeps(w.registry, w.token, tx.now, tx.caller, to, amount);
      case SendFrom(from, to, amount) =>
        SpendKeepsBalances(w.token, from, tx.caller, amount);
        var spent := SpendSpec(w.token, from, tx.caller, amount);
        if spent.Ok? {
          MoveKeeps(w.registry, spent.value, tx.now, from, to, amount);
        }
      case _ =>
    }
  }

  /** In every reachable state the balances add up to the supply, which is what was minted, below 2^256. */
  lemma {:induction false} SupplyIsConserved(v: Verifier, g: World, txs: seq<Tx>)
    requires Conserved(g.token) && g.token.totalSupply == 0
    ensures var t := Run(v, g, txs).token;
            Total(t.balances) == t.totalSupply == Minted(v, g, txs) < WORD_LIMIT
    decreases |txs|
  {
    if |txs| == 0 {
    } else {
      var n := |txs| - 1;
      SupplyIsConserved(v, g, txs[..n]);
      StepConserves(v, Run(v, g, txs[..n]), txs[n]);
    }
  }

  lemma GenesisConserved(registryOwner: Caller, tokenOwner: Caller, root: Word)
    ensures Conserved(Genesis(registryOwner, tokenOwner, root).token)
  {
    SumOfNothing(ADDRESS_LIMIT);
  }

  /**
   * In every state reachable from deployment, a committed transfer moves exactly
   * the amount between two balances (none of them wraps, and a self-transfer
   * changes none), and a mint that passes its gates overflows exactly when the
   * supply would.
   */
  lemma UncheckedIsSafe(v: Verifier, registryOwner: Caller, tokenOwner: Caller, root: Word, txs: seq<Tx>, tx: Tx)
    ensures var w := Run(v, Genesis(registryOwner, tokenOwner, root), txs);
            var after := Step(v, w, tx).token.balances;
            && (tx.call.Send? && Execute(v, w, tx).Ok? ==>
                  ExactMove(w.token.balances, after, tx.caller, tx.call.to, tx.call.amount))
            && (tx.call.SendFrom? && Execute(v, w, tx).Ok? ==>
                  ExactMove(w.token.balances, after, tx.call.from, tx.call.to, tx.call.amount))
            && (tx.call.Mint? && tx.caller in w.token.roles.agents && tx.call.to != 0
                && IsVerified(w.registry, tx.call.to, tx.now) ==>
                  (Execute(v, w, tx) == Err(Panic) <==> w.token.totalSupply + tx.call.amount >= WORD_LIMIT))
  {
    var g := Genesis(registryOwner, tokenOwner, root);
    GenesisConserved(registryOwner, tokenOwner, root);
    SupplyIsConserved(v, g, txs);
    var w := Run(v, g, txs);
    match tx.call {
      case Send(to, amount) =>
        if Execute(v, w, tx).Ok? {
          MoveIsExact(w.token.balances, tx.caller, to, amount);
        }
      case SendFrom(from, to, amount) =>
        SpendKeepsBalances(w.token, from, tx.caller, amount);
        if Execute(v, w, tx).Ok? {
          MoveIsExact(w.token.balances, from, to, amount);
        }
      case Mint(to, amount) =>
        if w.token.totalSupply + amount < WORD_LIMIT {
          MintCreditFits(w.token, to, amount);
        }
      case _ =>
    }
  }
}
