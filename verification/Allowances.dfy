/** The allowance ledger over runs. */
module Allowances {
  import opened Roles
  import opened Registry
  import opened Token
  import opened Ledger
  import opened Replay

  /** The value of the holder's last committed approval of the spender, or the allowance the run began with. */
  function Approved(v: Verifier, w: World, txs: seq<Tx>, holder: Address, spender: Address): Word {
    if |txs| == 0 then Get(w.token.allowances, (holder, spender)) else
      var n := |txs| - 1;
      var tx := txs[n];
      if tx.call.Approve? && tx.caller == holder && tx.call.spender == spender
         && Execute(v, Run(v, w, txs[..n]), tx).Ok?
      then tx.call.amount
      else Approved(v, w, txs[..n], holder, spender)
  }

  /** What the spender has moved out of the holder's balance since that approval. */
  function Pulled(v: Verifier, w: World, txs: seq<Tx>, holder: Address, spender: Address): int {
    if |txs| == 0 then 0 else
      var n := |txs| - 1;
      var tx := txs[n];
      if Execute(v, Run(v, w, txs[..n]), tx).Err? then Pulled(v, w, txs[..n], holder, spender)
      else if tx.call.Approve? && tx.caller == holder && tx.call.spender == spender then 0
      else if tx.call.SendFrom? && tx.caller == spender && tx.call.from == holder then
        Pulled(v, w, txs[..n], holder, spender) + tx.call.amount
      else Pulled(v, w, txs[..n], holder, spender)
  }

  /** A committed transferFrom draws on the caller's allowance alone, and not at all on an infinite one. */
  lemma SpendDraws(reg: RegistryState, s: TokenState, caller: Caller, now: Word, from: Address, to: Address,
                   amount: Word, holder: Address, spender: Address)
    requires TransferFromSpec(reg, s, caller, now, from, to, amount).Ok?
    ensures var before := Get(s.allowances, (holder, spender));
            var after := Get(TransferFromSpec(reg, s, caller, now, from, to, amount).value.state.allowances,
                             (holder, spender));
            if holder == from && spender == caller && before != MAX_WORD then after == before - amount && after >= 0
            else after == before
  {
    assert TransferFromSpec(reg, s, caller, now, from, to, amount).value.state.allowances
        == SpendSpec(s, from, caller, amount).value.allowances;
  }

  /** What one transaction does to one allowance. */
  lemma StepAllowance(v: Verifier, w: World, tx: Tx, holder: Address, spender: Address)
    ensures var before := Get(w.token.allowances, (holder, spender));
            var after := Get(Step(v, w, tx).token.allowances, (holder, spender));
            if Execute(v, w, tx).Err? then after == before
            else if tx.call.Approve? && tx.caller == holder && tx.call.spender == spender then after == tx.call.amount
            else if tx.call.SendFrom? && tx.caller == spender && tx.call.from == holder then
              if before == MAX_WORD then after == before else after == before - tx.call.amount && 0 <= after
            else after == before
  {
    match tx.call {
      case SendFrom(from, to, amount) =>
        if Execute(v, w, tx).Ok? {
          SpendDraws(w.registry, w.token, tx.caller, tx.now, from, to, amount, holder, spender);
        }
      case _ =>
    }
  }

  /**
   * An infinite approval is never drawn down; a finite one always equals what is
   * left plus what was pulled since, so it never becomes infinite by itself and
   * never lets more be pulled than was approved.
   */
  lemma {:induction false} AllowanceLedger(v: Verifier, w: World, txs: seq<Tx>, holder: Address, spender: Address)
    ensures var left := Get(Run(v, w, txs).token.allowances, (holder, spender));
            var approved, pulled := Approved(v, w, txs, holder, spender), Pulled(v, w, txs, holder, spender);
            && pulled >= 0
            && (approved == MAX_WORD ==> left == MAX_WORD)
            && (approved != MAX_WORD ==> left + pulled == approved && left != MAX_WORD)
    decreases |txs|
  {
    if |txs| == 0 {
    } else {
      var n := |txs| - 1;
      AllowanceLedger(v, w, txs[..n], holder, spender);
      StepAllowance(v, Run(v, w, txs[..n]), txs[n], holder, spender);
    }
  }

  /** The value of the last Approval from the holder to the spender, 0 when there is none. */
  function LoggedApproval(log: seq<Event>, holder: Address, spender: Address): Word {
    if |log| == 0 then 0
    else if Newest(log).Approval? && Newest(log).owner == holder && Newest(log).spender == spender then
      Newest(log).amount
    else LoggedApproval(Front(log), holder, spender)
  }

  /** An Approval is logged for a committed approve and for nothing else. */
  lemma StepLogsApproval(v: Verifier, w: World, tx: Tx, holder: Address, spender: Address)
    ensures LoggedApproval(Step(v, w, tx).tokenLog, holder, spender)
            == if tx.call.Approve? && tx.caller == holder && tx.call.spender == spender && Execute(v, w, tx).Ok?
               then tx.call.amount else LoggedApproval(w.tokenLog, holder, spender)
  {
    var log := Step(v, w, tx).tokenLog;
    if log != w.tokenLog {
      assert log == w.tokenLog + [Newest(log)];
      Appended(w.tokenLog, Newest(log));
    }
  }

  /** The log's last approval is the run's. */
  lemma {:induction false} ApprovalsAreLogged(v: Verifier, registryOwner: Caller, tokenOwner: Caller, root: Word,
                                              txs: seq<Tx>, holder: Address, spender: Address)
    ensures var g := Genesis(registryOwner, tokenOwner, root);
            LoggedApproval(Run(v, g, txs).tokenLog, holder, spender) == Approved(v, g, txs, holder, spender)
    decreases |txs|
  {
    var g := Genesis(registryOwner, tokenOwner, root);
    if |txs| == 0 {
      var first := [OwnershipTransferred(0, tokenOwner)];
      assert LoggedApproval(first, holder, spender) == 0;
      Appended(first, AgentSet(tokenOwner, true));
      assert g.tokenLog == first + [AgentSet(tokenOwner, true)];
    } else {
      var n := |txs| - 1;
      ApprovalsAreLogged(v, registryOwner, tokenOwner, root, txs[..n], holder, spender);
      StepLogsApproval(v, Run(v, g, txs[..n]), txs[n], holder, spender);
    }
  }

  /**
   * In every state reachable from deployment, an allowance is the last approval in
   * the log exactly when that approval is infinite or nothing was pulled under it.
   */
  lemma AllowanceInLog(v: Verifier, registryOwner: Caller, tokenOwner: Caller, root: Word, txs: seq<Tx>,
                       holder: Address, spender: Address)
    ensures var g := Genesis(registryOwner, tokenOwner, root);
            var logged := LoggedApproval(Run(v, g, txs).tokenLog, holder, spender);
            Get(Run(v, g, txs).token.allowances, (holder, spender)) == logged
            <==> logged == MAX_WORD || Pulled(v, g, txs, holder, spender) == 0
  {
    ApprovalsAreLogged(v, registryOwner, tokenOwner, root, txs, holder, spender);
    AllowanceLedger(v, Genesis(registryOwner, tokenOwner, root), txs, holder, spender);
  }
}
