/** The gated ledger: every mint and transfer asks the registry, with unchecked arithmetic where the source has it. */
module Token {
  import opened Prelude
  import opened Roles
  import opened Registry

  const MAX_WORD: Word := WORD_LIMIT - 1

  datatype TokenState = TokenState(
    roles: RoleState, totalSupply: Word, balances: map<Address, Word>, allowances: map<(Address, Address), Word>)

  /** Arithmetic inside an unchecked block wraps. */
  function Wrap(x: int): Word {
    x % WORD_LIMIT
  }

  function MintSpec(reg: RegistryState, s: TokenState, caller: Caller, now: Word, to: Address, amount: Word)
      : Result<Effect<TokenState>, Revert>
  {
    if caller !in s.roles.agents then Err(NotAgent(caller))
    else if to == 0 then Err(ZeroAddress)
    else if !IsVerified(reg, to, now) then Err(RecipientNotVerified(to))
    else if s.totalSupply + amount >= WORD_LIMIT then Err(Panic)
    else if Get(s.balances, to) + amount >= WORD_LIMIT then Err(Panic)
    else Ok(Effect(s.(totalSupply := s.totalSupply + amount,
                      balances := s.balances[to := Get(s.balances, to) + amount]),
                   [Transfer(0, to, amount)]))
  }

  function ApproveSpec(s: TokenState, caller: Caller, spender: Address,
                       amount: Word): Result<Effect<TokenState>, Revert> {
    if spender == 0 then Err(ZeroAddress)
    else Ok(Effect(s.(allowances := s.allowances[(caller, spender) := amount]), [Approval(caller, spender, amount)]))
  }

  /** The two unchecked writes: the debit, then the credit read back from storage. */
  function Moved(balances: map<Address, Word>, from: Address, to: Address, amount: Word): map<Address, Word> {
    var debited := balances[from := Wrap(Get(balances, from) - amount)];
    debited[to := Wrap(Get(debited, to) + amount)]
  }

  function MoveSpec(reg: RegistryState, s: TokenState, now: Word, from: Address, to: Address, amount: Word)
      : Result<Effect<TokenState>, Revert>
  {
    if to == 0 then Err(ZeroAddress)
    else if !IsVerified(reg, from, now) then Err(SenderNotVerified(from))
    else if !IsVerified(reg, to, now) then Err(RecipientNotVerified(to))
    else if Get(s.balances, from) < amount then Err(InsufficientBalance(from, Get(s.balances, from), amount))
    else Ok(Effect(s.(balances := Moved(s.balances, from, to, amount)), [Transfer(from, to, amount)]))
  }

  function SpendSpec(s: TokenState, holder: Address, spender: Address, amount: Word): Result<TokenState, Revert> {
    var current := Get(s.allowances, (holder, spender));
    if current == MAX_WORD then Ok(s)
    else if current < amount then Err(InsufficientAllowance(holder, spender, current, amount))
    else Ok(s.(allowances := s.allowances[(holder, spender) := Wrap(current - amount)]))
  }

  function TransferFromSpec(reg: RegistryState, s: TokenState, caller: Caller, now: Word,
                            from: Address, to: Address, amount: Word): Result<Effect<TokenState>, Revert>
  {
    match SpendSpec(s, from, caller, amount)
    case Err(e) => Err(e)
    case Ok(spent) => MoveSpec(reg, spent, now, from, to, amount)
  }

  class KYCToken {
    const roles: Authority
    const identityRegistry: ComplianceRegistry
    var totalSupply: Word
    var balances: map<Address, Word>
    var allowances: map<(Address, Address), Word>

    ghost function State(): TokenState
      reads this, roles
    {
      TokenState(roles.State(), totalSupply, balances, allowances)
    }

    constructor (roles: Authority, identityRegistry: ComplianceRegistry)
      ensures this.roles == roles && this.identityRegistry == identityRegistry
      ensures State() == TokenState(roles.State(), 0, map[], map[])
    {
      this.roles := roles;
      this.identityRegistry := identityRegistry;
      totalSupply := 0;
      balances := map[];
      allowances := map[];
    }

    /** Deployment refuses a zero owner, then a zero registry address. */
    static method Deploy(registryAddr: Address, registry: ComplianceRegistry, initialOwner: Address)
        returns (r: Result<KYCToken, Revert>)
      ensures initialOwner == 0 || registryAddr == 0 ==> r == Err(ZeroAddress)
      ensures initialOwner != 0 && registryAddr != 0 ==>
                && r.Ok? && fresh(r.value) && fresh(r.value.roles) && r.value.identityRegistry == registry
                && r.value.State() == TokenState(RoleState(initialOwner, {initialOwner}), 0, map[], map[])
                && r.value.roles.log == [OwnershipTransferred(0, initialOwner), AgentSet(initialOwner, true)]
    {
      var roles := Authority.Deploy(initialOwner);
      if roles.Err? {
        return Err(roles.error);
      }
      if registryAddr == 0 {
        return Err(ZeroAddress);
      }
      var token := new KYCToken(roles.value, registry);
      return Ok(token);
    }

    method Mint(caller: Caller, now: Word, to: Address, amount: Word) returns (r: Result<(), Revert>)
      modifies this, roles
      ensures Commits(MintSpec(old(identityRegistry.State()), old(State()), caller, now, to, amount),
                      old(State()), old(roles.log), State(), roles.log, r)
    {
      if caller !in roles.agents {
        return Err(NotAgent(caller));
      }
      if to == 0 {
        return Err(ZeroAddress);
      }
      var verified := identityRegistry.Verified(to, now);
      if !verified {
        return Err(RecipientNotVerified(to));
      }
      if totalSupply + amount >= WORD_LIMIT {
        return Err(Panic);
      }
      totalSupply := totalSupply + amount;
      if Get(balances, to) + amount >= WORD_LIMIT {
        totalSupply := totalSupply - amount;  // the revert undoes the first write
        return Err(Panic);
      }
      balances := balances[to := Get(balances, to) + amount];
      roles.log := roles.log + [Transfer(0, to, amount)];
      return Ok(());
    }

    method Approve(caller: Caller, spender: Address, amount: Word) returns (r: Result<(), Revert>)
      modifies this, roles
      ensures Commits(ApproveSpec(old(State()), caller, spender, amount),
                      old(State()), old(roles.log), State(), roles.log, r)
    {
      if spender == 0 {
        return Err(ZeroAddress);
      }
      allowances := allowances[(caller, spender) := amount];
      roles.log := roles.log + [Approval(caller, spender, amount)];
      return Ok(());
    }

    method Move(now: Word, from: Address, to: Address, amount: Word) returns (r: Result<(), Revert>)
      modifies this, roles
      ensures Commits(MoveSpec(old(identityRegistry.State()), old(State()), now, from, to, amount),
                      old(State()), old(roles.log), State(), roles.log, r)
    {
      if to == 0 {
        return Err(ZeroAddress);
      }
      var senderVerified := identityRegistry.Verified(from, now);
      if !senderVerified {
        return Err(SenderNotVerified(from));
      }
      var recipientVerified := identityRegistry.Verified(to, now);
      if !recipientVerified {
        return Err(RecipientNotVerified(to));
      }
      var bal := Get(balances, from);
      if bal < amount {
        return Err(InsufficientBalance(from, bal, amount));
      }
      balances := balances[from := Wrap(bal - amount)];
      balances := balances[to := Wrap(Get(balances, to) + amount)];
      roles.log := roles.log + [Transfer(from, to, amount)];
      return Ok(());
    }

    method Send(caller: Caller, now: Word, to: Address, amount: Word) returns (r: Result<(), Revert>)
      modifies this, roles
      ensures Commits(MoveSpec(old(identityRegistry.State()), old(State()), now, caller, to, amount),
                      old(State()), old(roles.log), State(), roles.log, r)
    {
      r := Move(now, caller, to, amount);
    }

    method SpendAllowance(holder: Address, spender: Address, amount: Word) returns (r: Result<(), Revert>)
      modifies this`allowances
      ensures match SpendSpec(old(State()), holder, spender, amount)
              case Ok(s) => r == Ok(()) && State() == s
              case Err(e) => r == Err(e) && State() == old(State())
    {
      var current := Get(allowances, (holder, spender));
      if current != MAX_WORD {
        if current < amount {
          return Err(InsufficientAllowance(holder, spender, current, amount));
        }
        allowances := allowances[(holder, spender) := Wrap(current - amount)];
      }
      return Ok(());
    }

    method TransferFrom(caller: Caller, now: Word, from: Address, to: Address,
                        amount: Word) returns (r: Result<(), Revert>)
      modifies this, roles
      ensures Commits(TransferFromSpec(old(identityRegistry.State()), old(State()), caller, now, from, to, amount),
                      old(State()), old(roles.log), State(), roles.log, r)
    {
      var saved := allowances;
      r := SpendAllowance(from, caller, amount);
      if r.Ok? {
        r := Move(now, from, to, amount);
        if r.Err? {
          allowances := saved;  // the revert undoes the spend
        }
      }
    }
  }
}
