/** The AgentSmartAccount contract over the enforcer, the fee manager and the chain's balances. */
module AccountContract {
  import opened Account
  import opened Evm
  import opened Ledger
  import Enforcer
  import EnforcerContract
  import Fees

  const SIG_VALIDATION_FAILED: nat := 1

  class AgentSmartAccount {
    const config: Config
    const enforcer: EnforcerContract.PermissionEnforcer
    const feeManager: Fees.GuardrailFeeManager
    const bank: Bank

    constructor (config: Config, enforcer: EnforcerContract.PermissionEnforcer,
                 feeManager: Fees.GuardrailFeeManager, bank: Bank)
      ensures this.config == config && this.enforcer == enforcer
      ensures this.feeManager == feeManager && this.bank == bank
    {
      this.config, this.enforcer, this.feeManager, this.bank := config, enforcer, feeManager, bank;
    }

    ghost function EnvAt(block: Block, callees: Callees): Env
      reads feeManager, feeManager.priceOracle
    {
      EnvOf(feeManager.View(), block, callees)
    }

    /** A reverted execution gives all ETH back. */
    ghost predicate Settles(before: Balances, r: Result<nat>, after: Balances, spec: Result<Executed>) {
      match spec
      case Ok(done) => r == Ok(done.fees) && after == done.balances
      case Revert(e) => r == Revert(e) && after == before
    }

    method ChargeFee(block: Block, callees: Callees, value: Word) returns (r: Result<Word>)
      modifies bank
      ensures match Charge(EnvAt(block, callees), config.self, old(bank.balances), value)
              case Ok(charged) => r == Ok(charged.fees) && bank.balances == charged.balances
              case Revert(e) => r == Revert(e)
    {
      if value == 0 { return Ok(0); }
      var fee :- feeManager.CalculateTransferFee(block, value);
      if fee > 0 {
        var collector := feeManager.feeCollector;
        var feeSent := bank.Transfer(config.self, collector, fee, callees.takesFee(collector, fee));
        if !feeSent { return Revert(FeeTransferFailed); }
      }
      return Ok(fee);
    }

    method SendValue(block: Block, callees: Callees, call: Call, fee: Word) returns (r: Result<()>)
      modifies bank
      ensures match Deliver(EnvAt(block, callees), config.self, old(bank.balances), call, fee)
              case Ok(b) => r == Ok(()) && bank.balances == b
              case Revert(e) => r == Revert(e)
    {
      if fee > call.value { return Revert(Panic); }
      var sendValue := call.value - fee;
      var success := bank.Transfer(config.self, call.target, sendValue, callees.accepts(call.(value := sendValue)));
      if !success { return Revert(ExecutionFailed); }
      return Ok(());
    }

    method Execute(sender: Address, block: Block, callees: Callees, call: Call) returns (r: Result<nat>)
      modifies bank
      ensures Settles(old(bank.balances), r, bank.balances,
                      if sender != config.owner && sender != config.entryPoint then Revert(NotAuthorized)
                      else Account.Execute(EnvAt(block, callees), config.self, old(bank.balances), call))
    {
      if sender != config.owner && sender != config.entryPoint { return Revert(NotAuthorized); }
      var before := bank.balances;
      var fee := ChargeFee(block, callees, call.value);
      if fee.Revert? {
        bank.balances := before;
        return Revert(fee.error);
      }
      var sent := SendValue(block, callees, call, fee.value);
      if sent.Revert? {
        bank.balances := before;
        return Revert(sent.error);
      }
      return Ok(fee.value);
    }

    /** The body of the executeBatch loop; the caller rolls back. */
    method RunOne(block: Block, callees: Callees, call: Call, totalFees: Word) returns (r: Result<Word>)
      modifies bank
      ensures match BatchTurn(EnvAt(block, callees), config.self)(Executed(old(bank.balances), totalFees), call)
              case Ok(turn) => r == Ok(turn.fees) && bank.balances == turn.balances
              case Revert(e) => r == Revert(e)
    {
      var fee :- ChargeFee(block, callees, call.value);
      if totalFees + fee >= UINT256_LIMIT { return Revert(Panic); }
      var _ :- SendValue(block, callees, call, fee);
      return Ok(totalFees + fee);
    }

    method ExecuteBatch(sender: Address, block: Block, callees: Callees,
                        targets: seq<Address>, values: seq<Word>, datas: seq<Bytes>) returns (r: Result<nat>)
      modifies bank
      ensures Settles(old(bank.balances), r, bank.balances,
                      if sender != config.owner && sender != config.entryPoint then Revert(NotAuthorized)
                      else if !(|targets| == |values| == |datas|) then Revert(LengthMismatch)
                      else Batch(EnvAt(block, callees), config.self, old(bank.balances), Zip(targets, values, datas)))
    {
      if sender != config.owner && sender != config.entryPoint { return Revert(NotAuthorized); }
      if |targets| != |values| || |values| != |datas| { return Revert(LengthMismatch); }
      var before := bank.balances;
      ghost var env, calls := EnvAt(block, callees), Zip(targets, values, datas);
      var totalFees: Word := 0;
      for i := 0 to |targets|
        invariant EnvAt(block, callees) == env
        invariant Batch(env, config.self, before, calls)
               == Fold(BatchTurn(env, config.self), Executed(bank.balances, totalFees), calls[i..])
      {
        assert calls[i..][0] == Call(targets[i], values[i], datas[i]) && calls[i..][1..] == calls[i + 1..];
        var total := RunOne(block, callees, Call(targets[i], values[i], datas[i]), totalFees);
        if total.Revert? {
          bank.balances := before;
          return Revert(total.error);
        }
        totalFees := total.value;
      }
      return Ok(totalFees);
    }

    /** One call of enforcer.validateAction. */
    method AskEnforcer(block: Block, selector: Selector, target: Address, value: Word) returns (r: Result<bool>)
      ensures r == Ask(enforcer.Seen(block), config, selector, target, value)
    {
      var key := Enforcer.Key(config.agentId, ActionId(target, selector));
      var result :- enforcer.ValidateAction(block, key, Enforcer.Extended(value, target, Null, config.chainId));
      return Ok(result.valid);
    }

    method AskForBatch(block: Block, targets: seq<Address>, values: seq<Word>) returns (r: Result<bool>)
      ensures r == AskAll(enforcer.Seen(block), config, targets, values)
    {
      ghost var w := enforcer.Seen(block);
      for i := 0 to |targets|
        invariant i <= |values|
        invariant AskAll(w, config, targets, values) == AskAll(w, config, targets[i..], values[i..])
      {
        if i >= |values| { return Revert(Panic); }
        assert targets[i..][1..] == targets[i + 1..] && values[i..][1..] == values[i + 1..];
        var valid :- AskEnforcer(block, ExecuteBatchSelector, targets[i], values[i]);
        if !valid { return Ok(false); }
      }
      return Ok(true);
    }

    method ValidateUserOp(sender: Address, block: Block, signed: bool, cd: Calldata,
                          missingAccountFunds: nat, prefundTaken: bool) returns (r: Result<nat>)
      modifies bank
      ensures match Screen(enforcer.Seen(block), config, sender, signed, cd)
              case Revert(e) => r == Revert(e) && bank.balances == old(bank.balances)
              case Ok(false) => r == Ok(SIG_VALIDATION_FAILED) && bank.balances == old(bank.balances)
              case Ok(true) =>
                && r == Ok(0)
                && bank.balances
                   == Prefund(old(bank.balances), config.self, config.entryPoint, missingAccountFunds, prefundTaken)
      ensures r == Ok(0) ==> signed && sender == config.entryPoint
      ensures sender == config.entryPoint && !signed ==> r == Ok(1) && bank.balances == old(bank.balances)
    {
      if sender != config.entryPoint { return Revert(NotAuthorized); }
      if !signed { return Ok(SIG_VALIDATION_FAILED); }
      if cd.size >= 4 {
        if cd.selector == ExecuteSelector && cd.size >= 68 {
          var args :- Decode(cd);
          var valid :- AskEnforcer(block, cd.selector, args.call.target, args.call.value);
          if !valid { return Ok(SIG_VALIDATION_FAILED); }
        }
        if cd.selector == ExecuteBatchSelector && cd.size >= 68 {
          var args :- Decode(cd);
          var valid :- AskForBatch(block, args.targets, args.values);
          if !valid { return Ok(SIG_VALIDATION_FAILED); }
        }
      }
      if missingAccountFunds > 0 {
        var success := bank.Transfer(config.self, config.entryPoint, missingAccountFunds, prefundTaken);
      }
      return Ok(0);
    }
  }
}
