/** AgentAccountFactory: idempotent CREATE2 deployment against a creation fee, with refunds. */
module Factory {
  import opened Evm
  import opened Ledger
  import Fees

  datatype Params = Params(owner: Address, signer: Address, agentId: Bytes32, salt: Bytes32)
  datatype Config = Config(self: Address, enforcer: Address, entryPoint: Address, feeManager: Address)

  /** An AccountCreated event with its CreationFeePaid: who paid what to whom. */
  datatype Deployment = Deployment(account: Address, params: Params, payer: Address, collector: Address, fee: Word)

  /** Balances, the accounts with code at their addresses, and the deployments so far. */
  datatype State = State(balances: Balances, accounts: map<Address, Params>, log: seq<Deployment>)

  /** A createAccount transaction and what it meets: the fee manager's fee in wei and collector, and whether
      the payees take ETH. */
  datatype Tx = Tx(sender: Address, value: Word, params: Params, fee: Result<Word>, collector: Address,
                   feeTaken: bool, refundTaken: bool)

  /** Section 'Specification' of EIP-1014 over this factory, the combined salt and the account's init code. */
  function GetAddress(c: Config, p: Params): Address {
    Create2(c.self, AccountSalt(p.owner, p.signer, p.agentId, p.salt),
            InitCodeHash(p.owner, p.signer, p.agentId, c.enforcer, c.entryPoint, c.feeManager))
  }

  /** ETH leaves the factory only for others: the factory itself takes no plain transfer. */
  function PayOut(c: Config, b: Balances, to: Address, amount: nat, taken: bool, error: Error): Result<Balances> {
    match Pay(b, c.self, to, amount, taken && to != c.self)
    case None => Revert(error)
    case Some(b') => Ok(b')
  }

  function Refund(c: Config, b: Balances, tx: Tx, amount: nat): Result<Balances> {
    if amount == 0 then Ok(b) else PayOut(c, b, tx.sender, amount, tx.refundTaken, RefundFailed)
  }

  function Create(c: Config, s: State, tx: Tx): Result<State> {
    match Pay(s.balances, tx.sender, c.self, tx.value, true)
    case None => Revert(InsufficientFunds)
    case Some(b) =>
      var account := GetAddress(c, tx.params);
      if account in s.accounts then
        var b' :- Refund(c, b, tx, tx.value);
        Ok(s.(balances := b'))
      else
        var fee :- tx.fee;
        if tx.value < fee then Revert(InsufficientCreationFee)
        else
          var paid :- PayOut(c, b, tx.collector, fee, tx.feeTaken, FeeTransferFailed);
          var b' :- Refund(c, paid, tx, tx.value - fee);
          Ok(State(b', s.accounts[account := tx.params],
                   s.log + [Deployment(account, tx.params, tx.sender, tx.collector, fee)]))
  }

  function Next(c: Config, s: State, tx: Tx): State {
    var r := Create(c, s, tx);
    if r.Ok? then r.value else s
  }

  function Run(c: Config, s: State, txs: seq<Tx>): State
    decreases txs
  {
    if txs == [] then s else Run(c, Next(c, s, txs[0]), txs[1..])
  }

  /** The fees collector x received in these deployments. */
  function Collected(log: seq<Deployment>, x: Address): nat {
    if log == [] then 0
    else Collected(log[..|log| - 1], x) + if log[|log| - 1].collector == x then log[|log| - 1].fee else 0
  }

  /** The fees payer x paid in these deployments. */
  function Charged(log: seq<Deployment>, x: Address): nat {
    if log == [] then 0
    else Charged(log[..|log| - 1], x) + if log[|log| - 1].payer == x then log[|log| - 1].fee else 0
  }

  /** Accounts live exactly where their parameters put them, each deployed once, and only from this factory's log. */
  ghost predicate Inv(c: Config, s: State) {
    && (forall a :: a in s.accounts ==> a == GetAddress(c, s.accounts[a]))
    && (forall a :: a in s.accounts <==> exists i :: 0 <= i < |s.log| && s.log[i].account == a)
    && (forall i :: 0 <= i < |s.log| ==> s.log[i].account == GetAddress(c, s.log[i].params))
    && (forall i, j :: 0 <= i < j < |s.log| ==> s.log[i].params != s.log[j].params)
  }

  /** A transaction deploys at a free address and logs it, or changes neither accounts nor log. */
  lemma NextShape(c: Config, s: State, tx: Tx)
    ensures var s' := Next(c, s, tx);
            var account := GetAddress(c, tx.params);
            || (s'.accounts == s.accounts && s'.log == s.log)
            || (&& account !in s.accounts && s'.accounts == s.accounts[account := tx.params]
                && |s'.log| == |s.log| + 1 && s'.log == s.log + [s'.log[|s.log|]]
                && s'.log[|s.log|].account == account && s'.log[|s.log|].params == tx.params)
  {
  }

  lemma DeploymentKeepsInv(c: Config, s: State, s': State, e: Deployment)
    requires Inv(c, s) && e.account == GetAddress(c, e.params) && e.account !in s.accounts
    requires s'.accounts == s.accounts[e.account := e.params] && s'.log == s.log + [e]
    ensures Inv(c, s')
  {
    forall i | 0 <= i < |s.log| ensures s.log[i].params != e.params {
      assert s.log[i].account in s.accounts;
    }
    forall a
      ensures a in s'.accounts <==> exists i :: 0 <= i < |s'.log| && s'.log[i].account == a
    {
      assert s'.log[|s.log|] == e;
      if a in s.accounts {
        var i :| 0 <= i < |s.log| && s.log[i].account == a;
        assert s'.log[i].account == a;
      }
    }
  }

  lemma NextKeepsInv(c: Config, s: State, tx: Tx)
    requires Inv(c, s)
    ensures Inv(c, Next(c, s, tx))
  {
    var s' := Next(c, s, tx);
    NextShape(c, s, tx);
    if s'.log != s.log {
      DeploymentKeepsInv(c, s, s', s'.log[|s.log|]);
    }
  }

  /** One transaction moves only the fee, from the payer to the collector; the factory's balance stays. */
  lemma NextBalances(c: Config, s: State, tx: Tx, x: Address)
    requires tx.sender != c.self
    ensures var s' := Next(c, s, tx);
            if s'.log == s.log then Balance(s'.balances, x) == Balance(s.balances, x)
            else
              && |s'.log| == |s.log| + 1 && s'.log[..|s.log|] == s.log
              && var e := s'.log[|s.log|];
              && e.collector != c.self && e.payer != c.self
              && Balance(s'.balances, x) == Balance(s.balances, x)
                 + (if x == e.collector then e.fee else 0) - (if x == e.payer then e.fee else 0)
  {
  }

  lemma NextMovesOnlyTheFee(c: Config, s: State, tx: Tx, x: Address)
    requires tx.sender != c.self
    ensures var s' := Next(c, s, tx);
            Balance(s'.balances, x) ==
            Balance(s.balances, x) + Collected(s'.log, x) - Collected(s.log, x) - Charged(s'.log, x) + Charged(s.log, x)
    ensures Balance(Next(c, s, tx).balances, c.self) == Balance(s.balances, c.self)
  {
    NextBalances(c, s, tx, x);
    NextBalances(c, s, tx, c.self);
  }

  lemma {:induction false} RunAccounts(c: Config, s: State, txs: seq<Tx>, x: Address)
    requires Inv(c, s) && forall tx :: tx in txs ==> tx.sender != c.self
    ensures var s' := Run(c, s, txs);
            && Inv(c, s')
            && Balance(s'.balances, c.self) == Balance(s.balances, c.self)
            && Balance(s'.balances, x) ==
               Balance(s.balances, x) + Collected(s'.log, x) - Collected(s.log, x)
               - Charged(s'.log, x) + Charged(s.log, x)
    decreases txs
  {
    if txs != [] {
      assert txs[0] in txs;
      NextKeepsInv(c, s, txs[0]);
      NextMovesOnlyTheFee(c, s, txs[0], x);
      RunAccounts(c, Next(c, s, txs[0]), txs[1..], x);
    }
  }

  /** Over every run from an unused factory: its balance never changes, no parameters are deployed twice,
      every account lives at getAddress of its parameters, and every address gains exactly the fees it
      collected at first deployments less the fees it paid for its own. */
  lemma EveryRun(c: Config, b: Balances, txs: seq<Tx>, x: Address)
    requires forall tx :: tx in txs ==> tx.sender != c.self
    ensures var s := Run(c, State(b, map[], []), txs);
            && Balance(s.balances, c.self) == Balance(b, c.self)
            && (forall i, j :: 0 <= i < j < |s.log| ==> s.log[i].params != s.log[j].params)
            && (forall i :: 0 <= i < |s.log| ==> s.log[i].account == GetAddress(c, s.log[i].params))
            && Balance(s.balances, x) == Balance(b, x) + Collected(s.log, x) - Charged(s.log, x)
  {
    RunAccounts(c, State(b, map[], []), txs, x);
  }

  /** No two factories or parameters share an address, and in one factory the salt alone tells them apart. */
  lemma AddressesDiffer(c: Config, d: Config, p: Params, q: Params)
    ensures GetAddress(c, p) == GetAddress(d, q) <==> c == d && p == q
    ensures GetAddress(c, p).salt == GetAddress(d, q).salt <==> p == q
  {
  }

  /** Why a transaction from outside that its sender can pay reverts. */
  lemma CreateRevertsExactly(c: Config, s: State, tx: Tx)
    requires tx.sender != c.self && Create(c, s, tx).Revert?
    ensures Create(c, s, tx).error ==
            if tx.value > Balance(s.balances, tx.sender) then InsufficientFunds
            else if GetAddress(c, tx.params) in s.accounts then RefundFailed
            else if tx.fee.Revert? then tx.fee.error
            else if tx.value < tx.fee.value then InsufficientCreationFee
            else if !tx.feeTaken || tx.collector == c.self then FeeTransferFailed
            else RefundFailed
  {
  }

  /** A transaction from outside succeeds exactly when its sender has the value and, on a repeat, takes it back
      if there is any; on a first call, when there is a fee of at most the value, the collector takes it, and the
      sender takes back any excess. */
  lemma CreateSucceedsExactly(c: Config, s: State, tx: Tx)
    requires tx.sender != c.self
    ensures Create(c, s, tx).Ok? <==>
            && tx.value <= Balance(s.balances, tx.sender)
            && if GetAddress(c, tx.params) in s.accounts then tx.value == 0 || tx.refundTaken
               else
                 && tx.fee.Ok? && tx.fee.value <= tx.value
                 && tx.feeTaken && tx.collector != c.self
                 && (tx.value == tx.fee.value || tx.refundTaken)
  {
  }

  /** A repeat call deploys nothing, charges nobody and leaves every balance as it was. */
  lemma RepeatIsFree(c: Config, s: State, tx: Tx, x: Address)
    requires tx.sender != c.self && GetAddress(c, tx.params) in s.accounts
    ensures var s' := Next(c, s, tx);
            s'.accounts == s.accounts && s'.log == s.log && Balance(s'.balances, x) == Balance(s.balances, x)
    ensures Create(c, s, tx).Ok? <==> tx.value <= Balance(s.balances, tx.sender) && (tx.value == 0 || tx.refundTaken)
  {
  }

  /** A first call by a payer who covers the fee, with payees that take ETH, deploys at getAddress and moves
      exactly the fee, from the payer to the collector; every other balance stays. */
  lemma FirstCallDeploys(c: Config, s: State, tx: Tx, x: Address)
    requires tx.sender != c.self && tx.collector != c.self && GetAddress(c, tx.params) !in s.accounts
    requires tx.feeTaken && tx.refundTaken && tx.value <= Balance(s.balances, tx.sender)
    requires tx.fee.Ok? && tx.fee.value <= tx.value
    ensures Create(c, s, tx).Ok?
    ensures var s' := Next(c, s, tx);
            && s'.accounts == s.accounts[GetAddress(c, tx.params) := tx.params]
            && s'.log == s.log + [Deployment(GetAddress(c, tx.params), tx.params, tx.sender, tx.collector,
                                             tx.fee.value)]
            && Balance(s'.balances, x) == Balance(s.balances, x)
               + (if x == tx.collector then tx.fee.value else 0) - (if x == tx.sender then tx.fee.value else 0)
  {
    NextBalances(c, s, tx, x);
  }

  class AgentAccountFactory {
    const config: Config
    const feeManager: Fees.GuardrailFeeManager
    const bank: Bank
    var accounts: map<Address, Params>
    var created: seq<Deployment>

    ghost function View(): State
      reads this, bank
    {
      State(bank.balances, accounts, created)
    }

    constructor (config: Config, feeManager: Fees.GuardrailFeeManager, bank: Bank)
      ensures View() == State(bank.balances, map[], [])
      ensures this.config == config && this.feeManager == feeManager && this.bank == bank
    {
      this.config, this.feeManager, this.bank := config, feeManager, bank;
      accounts, created := map[], [];
    }

    method SendRefund(to: Address, amount: nat, taken: bool) returns (r: Result<()>)
      modifies bank
      ensures match Pay(old(bank.balances), config.self, to, amount, taken && to != config.self)
              case Some(b) => r == Ok(()) && bank.balances == b
              case None => r == Revert(RefundFailed)
    {
      var refunded := bank.Transfer(config.self, to, amount, taken && to != config.self);
      return if refunded then Ok(()) else Revert(RefundFailed);
    }

    /** A transaction that meets the fee manager as it is in this block. */
    ghost predicate Meets(tx: Tx, block: Block)
      reads feeManager, feeManager.priceOracle
    {
      tx.collector == feeManager.feeCollector && tx.fee == Fees.CreationFee(feeManager.View(), block)
    }

    /** The body of createAccount once msg.value has arrived; the caller rolls balances back on revert. */
    method Deploy(tx: Tx, block: Block) returns (r: Result<Word>)
      requires Meets(tx, block)
      modifies bank
      ensures match tx.fee {
                case Revert(e) => r == Revert(e)
                case Ok(fee) =>
                  if tx.value < fee then r == Revert(InsufficientCreationFee)
                  else match PayOut(config, old(bank.balances), tx.collector, fee, tx.feeTaken, FeeTransferFailed) {
                    case Revert(e) => r == Revert(e)
                    case Ok(paid) => match Refund(config, paid, tx, tx.value - fee) {
                      case Revert(e) => r == Revert(e)
                      case Ok(b) => r == Ok(fee) && bank.balances == b
                    }
                  }
              }
    {
      var requiredFee :- feeManager.GetCreationFeeWei(block);
      if tx.value < requiredFee { return Revert(InsufficientCreationFee); }
      var collector := feeManager.feeCollector;
      var sent := bank.Transfer(config.self, collector, requiredFee, tx.feeTaken && collector != config.self);
      if !sent { return Revert(FeeTransferFailed); }
      var excess := tx.value - requiredFee;
      if excess > 0 {
        var _ :- SendRefund(tx.sender, excess, tx.refundTaken);
      }
      return Ok(requiredFee);
    }

    method CreateAccount(tx: Tx, block: Block) returns (r: Result<Address>)
      requires Meets(tx, block)
      modifies this, bank
      ensures match Create(config, old(View()), tx)
              case Ok(s) => r == Ok(GetAddress(config, tx.params)) && View() == s
              case Revert(e) => r == Revert(e) && View() == old(View())
    {
      var before := bank.balances;
      var funded := bank.Transfer(tx.sender, config.self, tx.value, true);
      if !funded { return Revert(InsufficientFunds); }

      var predicted := GetAddress(config, tx.params);
      if predicted in accounts {
        if tx.value > 0 {
          var refunded := SendRefund(tx.sender, tx.value, tx.refundTaken);
          if refunded.Revert? {
            bank.balances := before;
            return Revert(refunded.error);
          }
        }
        return Ok(predicted);
      }

      var fee := Deploy(tx, block);
      if fee.Revert? {
        bank.balances := before;
        return Revert(fee.error);
      }
      accounts := accounts[predicted := tx.params];
      created := created + [Deployment(predicted, tx.params, tx.sender, feeManager.feeCollector, fee.value)];
      return Ok(predicted);
    }
  }
}
