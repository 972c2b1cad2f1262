/** AgentSmartAccount: screening a user operation, and executing calls with a transfer fee. */
module Account {
  import opened Arithmetic
  import opened Evm
  import opened Ledger
  import Enforcer
  import Fees

  type Byte = n: nat | n < 256
  type Bytes = seq<Byte>

  datatype Call = Call(target: Address, value: Word, data: Bytes)

  /** Who takes ETH: the collector when paid a fee on 2300 gas, and a target when called. */
  datatype Callees = Callees(takesFee: (Address, Word) -> bool, accepts: Call -> bool)

  /** What an execution reads: the fee on a value, the collector, and how callees respond. */
  datatype Env = Env(feeOn: Word -> Result<Word>, collector: Address, callees: Callees)

  /** The environment a fee manager's configuration gives in a block. */
  function EnvOf(fees: Fees.State, block: Block, callees: Callees): Env {
    Env((value: Word) => Fees.TransferFee(fees, block, value), fees.feeCollector, callees)
  }

  datatype Executed = Executed(balances: Balances, fees: nat)

  // ----- execution -----

  /** Calls without value are not asked about. */
  function FeeFor(env: Env, value: Word): Result<Word> {
    if value == 0 then Ok(0) else env.feeOn(value)
  }

  function Charge(env: Env, self: Address, b: Balances, value: Word): Result<Executed> {
    var fee :- FeeFor(env, value);
    if fee == 0 then Ok(Executed(b, 0))
    else
      var collector := env.collector;
      match Pay(b, self, collector, fee, env.callees.takesFee(collector, fee))
      case None => Revert(FeeTransferFailed)
      case Some(b') => Ok(Executed(b', fee))
  }

  function Deliver(env: Env, self: Address, b: Balances, call: Call, fee: nat): Result<Balances> {
    if fee > call.value then Revert(Panic)
    else
      match Pay(b, self, call.target, call.value - fee, env.callees.accepts(call.(value := call.value - fee)))
      case None => Revert(ExecutionFailed)
      case Some(b') => Ok(b')
  }

  function Execute(env: Env, self: Address, b: Balances, call: Call): Result<Executed> {
    var charged :- Charge(env, self, b, call.value);
    var b' :- Deliver(env, self, charged.balances, call, charged.fees);
    Ok(Executed(b', charged.fees))
  }

  /** A turn takes the balances and the fees so far through one more call, or reverts everything. */
  type TurnOf = (Executed, Call) -> Result<Executed>

  function Fold(turn: TurnOf, s: Executed, calls: seq<Call>): Result<Executed>
    decreases |calls|
  {
    if calls == [] then Ok(s)
    else
      var s' :- turn(s, calls[0]);
      Fold(turn, s', calls[1..])
  }

  /** One execute, its fee added up by an observer. */
  function ExecuteTurn(env: Env, self: Address): TurnOf {
    (s: Executed, call: Call) =>
      var done :- Execute(env, self, s.balances, call);
      Ok(Executed(done.balances, s.fees + done.fees))
  }

  /** One turn of the executeBatch loop, which totals fees in checked arithmetic before it delivers. */
  function BatchTurn(env: Env, self: Address): TurnOf {
    (s: Executed, call: Call) =>
      var charged :- Charge(env, self, s.balances, call.value);
      var total :- Checked(s.fees + charged.fees);
      var b' :- Deliver(env, self, charged.balances, call, charged.fees);
      Ok(Executed(b', total))
  }

  /** execute run on each call in order. */
  function Sequence(env: Env, self: Address, b: Balances, calls: seq<Call>): Result<Executed> {
    Fold(ExecuteTurn(env, self), Executed(b, 0), calls)
  }

  /** The loop of executeBatch. */
  function Batch(env: Env, self: Address, b: Balances, calls: seq<Call>): Result<Executed> {
    Fold(BatchTurn(env, self), Executed(b, 0), calls)
  }

  /** One turn of the loop is one execute, unless the running total overflows. */
  lemma TurnIsExecute(env: Env, self: Address, s: Executed, call: Call)
    ensures var free := ExecuteTurn(env, self)(s, call);
            if free.Ok? && free.value.fees < UINT256_LIMIT then BatchTurn(env, self)(s, call) == free
            else BatchTurn(env, self)(s, call).Revert?
  {
  }

  ghost predicate Adds(turn: TurnOf) {
    forall s, call :: turn(s, call).Ok? ==> s.fees <= turn(s, call).value.fees
  }

  ghost predicate Limits(limited: TurnOf, free: TurnOf) {
    forall s, call ::
      if free(s, call).Ok? && free(s, call).value.fees < UINT256_LIMIT then limited(s, call) == free(s, call)
      else limited(s, call).Revert?
  }

  lemma {:induction false} FoldAdds(turn: TurnOf, s: Executed, calls: seq<Call>)
    requires Adds(turn) && Fold(turn, s, calls).Ok?
    ensures s.fees <= Fold(turn, s, calls).value.fees
    decreases |calls|
  {
    if calls != [] {
      FoldAdds(turn, turn(s, calls[0]).value, calls[1..]);
    }
  }

  /** Checking the running total on every turn is the same as checking the final one. */
  lemma {:induction false} FoldLimits(limited: TurnOf, free: TurnOf, s: Executed, calls: seq<Call>)
    requires Adds(free) && Limits(limited, free) && s.fees < UINT256_LIMIT
    ensures var bounded, whole := Fold(limited, s, calls), Fold(free, s, calls);
            if whole.Ok? && whole.value.fees < UINT256_LIMIT then bounded == whole else bounded.Revert?
    decreases |calls|
  {
    if calls != [] {
      var next := free(s, calls[0]);
      if next.Ok? && next.value.fees < UINT256_LIMIT {
        FoldLimits(limited, free, next.value, calls[1..]);
      } else if Fold(free, s, calls).Ok? {
        FoldAdds(free, next.value, calls[1..]);
      }
    }
  }

  /** executeBatch succeeds exactly when running execute on each element in order does and the fees
      total below 2^256; then it leaves the same ledger and returns that total. */
  lemma BatchIsSequenceBelowOverflow(env: Env, self: Address, b: Balances, calls: seq<Call>)
    ensures var batch, one := Batch(env, self, b, calls), Sequence(env, self, b, calls);
            if one.Ok? && one.value.fees < UINT256_LIMIT then batch == one else batch.Revert?
  {
    forall s, call {
      TurnIsExecute(env, self, s, call);
    }
    FoldLimits(BatchTurn(env, self), ExecuteTurn(env, self), Executed(b, 0), calls);
  }

  /** Where one execute leaves the balance of any address. */
  lemma ExecuteLedger(env: Env, self: Address, b: Balances, call: Call, x: Address)
    requires Execute(env, self, b, call).Ok?
    ensures var fee := FeeFor(env, call.value);
            && fee.Ok? && Execute(env, self, b, call).value.fees == fee.value <= call.value
            && Balance(Execute(env, self, b, call).value.balances, x) ==
               Balance(b, x) + (if x == call.target then call.value - fee.value else 0)
               + (if x == env.collector then fee.value else 0) - (if x == self then call.value else 0)
  {
  }

  /** An execute succeeds exactly when there is a fee of at most the value, the collector takes it if it is
      positive, the target takes the rest, and the account can pay both: a fee paid to itself it gets back. */
  lemma ExecuteSucceedsExactly(env: Env, self: Address, b: Balances, call: Call)
    ensures Execute(env, self, b, call).Ok? <==>
            && (call.value == 0 || env.feeOn(call.value).Ok?)
            && var fee := if call.value == 0 then 0 else env.feeOn(call.value).value;
            && fee <= call.value
            && (fee > 0 ==> env.callees.takesFee(env.collector, fee) && fee <= Balance(b, self))
            && env.callees.accepts(Call(call.target, call.value - fee, call.data))
            && call.value <= Balance(b, self) + (if env.collector == self then fee else 0)
  {
  }

  /** Why an execute reverts: no fee to be had, the fee not paid, a fee above the value, or the target not paid. */
  lemma ExecuteRevertsExactly(env: Env, self: Address, b: Balances, call: Call)
    requires Execute(env, self, b, call).Revert?
    ensures var error := Execute(env, self, b, call).error;
            if call.value > 0 && env.feeOn(call.value).Revert? then error == env.feeOn(call.value).error
            else
              var fee := if call.value == 0 then 0 else env.feeOn(call.value).value;
              error == if fee > 0 && !(env.callees.takesFee(env.collector, fee) && fee <= Balance(b, self))
                       then FeeTransferFailed
                       else if fee > call.value then Panic else ExecutionFailed
  {
  }

  /** Under a fee manager the fee is calculateTransferFee's and goes to its collector; the rest goes to the target. */
  lemma ExecutePaysFeeManager(fees: Fees.State, block: Block, callees: Callees, self: Address, b: Balances,
                              call: Call, x: Address)
    requires call.value > 0 && Execute(EnvOf(fees, block, callees), self, b, call).Ok?
    ensures Fees.TransferFee(fees, block, call.value).Ok?
    ensures var fee, b' := Fees.TransferFee(fees, block, call.value).value,
                           Execute(EnvOf(fees, block, callees), self, b, call).value.balances;
            Balance(b', x) == Balance(b, x) + (if x == call.target then call.value - fee else 0)
                              + (if x == fees.feeCollector then fee else 0) - (if x == self then call.value else 0)
  {
    ExecuteLedger(EnvOf(fees, block, callees), self, b, call, x);
  }

  /** With a collector other than the account, fees come out of the account's own balance. */
  lemma {:induction false} FeesComeFromBalance(env: Env, self: Address, s: Executed, calls: seq<Call>)
    requires env.collector != self && Fold(ExecuteTurn(env, self), s, calls).Ok?
    ensures var done := Fold(ExecuteTurn(env, self), s, calls).value;
            Balance(done.balances, self) + done.fees <= Balance(s.balances, self) + s.fees
    decreases |calls|
  {
    if calls != [] {
      ExecuteLedger(env, self, s.balances, calls[0], self);
      FeesComeFromBalance(env, self, ExecuteTurn(env, self)(s, calls[0]).value, calls[1..]);
    }
  }

  /** executeBatch succeeds exactly when running execute on each element in order does, with the same
      final ledger and total of fees. */
  lemma BatchIsSequence(env: Env, self: Address, b: Balances, calls: seq<Call>)
    requires env.collector != self && Balance(b, self) < UINT256_LIMIT
    ensures Batch(env, self, b, calls).Ok? <==> Sequence(env, self, b, calls).Ok?
    ensures Batch(env, self, b, calls).Ok? ==> Batch(env, self, b, calls) == Sequence(env, self, b, calls)
  {
    BatchIsSequenceBelowOverflow(env, self, b, calls);
    if Sequence(env, self, b, calls).Ok? {
      FeesComeFromBalance(env, self, Executed(b, 0), calls);
    }
  }

  lemma ChargeConserves(env: Env, self: Address, b: Balances, value: Word)
    requires Charge(env, self, b, value).Ok?
    ensures Total(Charge(env, self, b, value).value.balances) == Total(b)
  {
    var fee := FeeFor(env, value).value;
    if fee > 0 {
      PayConserves(b, self, env.collector, fee);
    }
  }

  lemma DeliverConserves(env: Env, self: Address, b: Balances, call: Call, fee: nat)
    requires Deliver(env, self, b, call, fee).Ok?
    ensures Total(Deliver(env, self, b, call, fee).value) == Total(b)
  {
    PayConserves(b, self, call.target, call.value - fee);
  }

  lemma ExecuteConserves(env: Env, self: Address, b: Balances, call: Call)
    requires Execute(env, self, b, call).Ok?
    ensures Total(Execute(env, self, b, call).value.balances) == Total(b)
  {
    var charged := Charge(env, self, b, call.value).value;
    ChargeConserves(env, self, b, call.value);
    DeliverConserves(env, self, charged.balances, call, charged.fees);
  }

  lemma {:induction false} FoldConserves(env: Env, self: Address, s: Executed, calls: seq<Call>)
    requires Fold(ExecuteTurn(env, self), s, calls).Ok?
    ensures Total(Fold(ExecuteTurn(env, self), s, calls).value.balances) == Total(s.balances)
    decreases |calls|
  {
    if calls != [] {
      ExecuteConserves(env, self, s.balances, calls[0]);
      FoldConserves(env, self, ExecuteTurn(env, self)(s, calls[0]).value, calls[1..]);
    }
  }

  function Values(calls: seq<Call>): nat {
    if calls == [] then 0 else calls[0].value + Values(calls[1..])
  }

  /** What the calls send to x, net of fees. */
  function SentTo(env: Env, calls: seq<Call>, x: Address): int {
    if calls == [] then 0
    else
      var fee := FeeFor(env, calls[0].value);
      (if calls[0].target == x && fee.Ok? then calls[0].value - fee.value else 0) + SentTo(env, calls[1..], x)
  }

  /** All the calls send, net of fees. */
  function TotalSent(env: Env, calls: seq<Call>): int {
    if calls == [] then 0
    else
      var fee := FeeFor(env, calls[0].value);
      (if fee.Ok? then calls[0].value - fee.value else 0) + TotalSent(env, calls[1..])
  }

  lemma {:induction false} FoldSplitsValues(env: Env, self: Address, s: Executed, calls: seq<Call>)
    requires Fold(ExecuteTurn(env, self), s, calls).Ok?
    ensures Values(calls) == Fold(ExecuteTurn(env, self), s, calls).value.fees - s.fees + TotalSent(env, calls)
    decreases |calls|
  {
    if calls != [] {
      ExecuteLedger(env, self, s.balances, calls[0], self);
      FoldSplitsValues(env, self, ExecuteTurn(env, self)(s, calls[0]).value, calls[1..]);
    }
  }

  lemma {:induction false} FoldFeesBelowTenth(env: Env, self: Address, s: Executed, calls: seq<Call>)
    requires Fold(ExecuteTurn(env, self), s, calls).Ok?
    requires forall v: Word :: FeeFor(env, v).Ok? ==> 10 * FeeFor(env, v).value <= v
    ensures 10 * (Fold(ExecuteTurn(env, self), s, calls).value.fees - s.fees) <= Values(calls)
    decreases |calls|
  {
    if calls != [] {
      ExecuteLedger(env, self, s.balances, calls[0], self);
      FoldFeesBelowTenth(env, self, ExecuteTurn(env, self)(s, calls[0]).value, calls[1..]);
    }
  }

  lemma {:induction false} FoldLedger(env: Env, self: Address, s: Executed, calls: seq<Call>, x: Address)
    requires Fold(ExecuteTurn(env, self), s, calls).Ok?
    ensures var done := Fold(ExecuteTurn(env, self), s, calls).value;
            Balance(done.balances, x) ==
            Balance(s.balances, x) + SentTo(env, calls, x) + (if x == env.collector then done.fees - s.fees else 0)
            - (if x == self then Values(calls) else 0)
    decreases |calls|
  {
    if calls != [] {
      ExecuteLedger(env, self, s.balances, calls[0], x);
      FoldLedger(env, self, ExecuteTurn(env, self)(s, calls[0]).value, calls[1..], x);
    }
  }

  /** The whole ledger an executeBatch leaves: ETH is conserved, every address gains what it was sent, the
      collector also the fees returned as the total, and the account pays the sum of the values. */
  lemma BatchLedger(env: Env, self: Address, b: Balances, calls: seq<Call>, x: Address)
    requires Batch(env, self, b, calls).Ok?
    ensures var done := Batch(env, self, b, calls).value;
            && Total(done.balances) == Total(b)
            && Balance(done.balances, x) ==
               Balance(b, x) + SentTo(env, calls, x) + (if x == env.collector then done.fees else 0)
               - (if x == self then Values(calls) else 0)
  {
    BatchIsSequenceBelowOverflow(env, self, b, calls);
    FoldConserves(env, self, Executed(b, 0), calls);
    FoldLedger(env, self, Executed(b, 0), calls, x);
  }

  lemma {:induction false} NothingSentTo(env: Env, calls: seq<Call>, x: Address)
    requires forall c :: c in calls ==> c.target != x
    ensures SentTo(env, calls, x) == 0
  {
    if calls != [] {
      assert calls[0] in calls;
      NothingSentTo(env, calls[1..], x);
    }
  }

  /** A batch's values are exactly its fees and what it sends on. When no target is the account and the
      collector is another address, the account's balance falls by exactly that. */
  lemma BatchCost(env: Env, self: Address, b: Balances, calls: seq<Call>)
    requires Batch(env, self, b, calls).Ok?
    ensures Values(calls) == Batch(env, self, b, calls).value.fees + TotalSent(env, calls)
    ensures env.collector != self && (forall c :: c in calls ==> c.target != self) ==>
              Balance(Batch(env, self, b, calls).value.balances, self) == Balance(b, self) - Values(calls)
  {
    BatchIsSequenceBelowOverflow(env, self, b, calls);
    FoldSplitsValues(env, self, Executed(b, 0), calls);
    BatchLedger(env, self, b, calls, self);
    if forall c :: c in calls ==> c.target != self {
      NothingSentTo(env, calls, self);
    }
  }

  /** Under a reachable fee configuration a batch pays at most a tenth of its values in fees. */
  lemma BatchFeesBelowTenth(fees: Fees.State, block: Block, callees: Callees,
                            self: Address, b: Balances, calls: seq<Call>)
    requires Fees.Configured(fees) && Batch(EnvOf(fees, block, callees), self, b, calls).Ok?
    ensures 10 * Batch(EnvOf(fees, block, callees), self, b, calls).value.fees <= Values(calls)
  {
    var env := EnvOf(fees, block, callees);
    forall v: Word | FeeFor(env, v).Ok?
      ensures 10 * FeeFor(env, v).value <= v
    {
      if v > 0 { Fees.FeeBelowTenth(fees, block, v); }
    }
    BatchIsSequenceBelowOverflow(env, self, b, calls);
    FoldFeesBelowTenth(env, self, Executed(b, 0), calls);
  }

  // ----- user operations -----

  datatype Args =
    | ExecuteArgs(call: Call)
    | BatchArgs(targets: seq<Address>, values: seq<Word>, datas: seq<Bytes>)
    | Undecodable

  /** Calldata of some length in bytes; its selector and arguments once decoded. */
  datatype Calldata = Calldata(size: nat, selector: Selector, args: Args)

  /** Both argument tuples have a head of three 32-byte words, which the decoder requires. */
  const DECODABLE_SIZE: nat := 4 + 3 * 32

  function Decode(cd: Calldata): Result<Args> {
    if cd.size < DECODABLE_SIZE then Revert(BadCalldata)
    else match cd.selector
      case ExecuteSelector => if cd.args.ExecuteArgs? then Ok(cd.args) else Revert(BadCalldata)
      case ExecuteBatchSelector => if cd.args.BatchArgs? then Ok(cd.args) else Revert(BadCalldata)
      case OtherSelector => Revert(BadCalldata)
  }

  /** The immutable part of an account. */
  datatype Config = Config(self: Address, owner: Address, agentId: Bytes32, entryPoint: Address, chainId: Word)

  /** The action data an account asks the enforcer about: the target as the token, and no protocol. */
  function AskedData(c: Config, target: Address, value: Word): Enforcer.ActionData {
    Enforcer.Extended(value, target, Null, c.chainId)
  }

  function KeyOf(c: Config, selector: Selector, target: Address): Enforcer.Key {
    Enforcer.Key(c.agentId, ActionId(target, selector))
  }

  /** The enforcer's answer on one (target, value) pair. */
  function Ask(w: Enforcer.World, c: Config, selector: Selector, target: Address, value: Word): Result<bool> {
    var result :- Enforcer.Validate(w, KeyOf(c, selector, target), AskedData(c, target, value));
    Ok(result.valid)
  }

  function AskAll(w: Enforcer.World, c: Config, targets: seq<Address>, values: seq<Word>): Result<bool> {
    if targets == [] then Ok(true)
    else if values == [] then Revert(Panic)
    else
      var valid :- Ask(w, c, ExecuteBatchSelector, targets[0], values[0]);
      if valid then AskAll(w, c, targets[1..], values[1..]) else Ok(false)
  }

  /** validateUserOp up to the prefund: whether it will return 0. */
  function Screen(w: Enforcer.World, c: Config, sender: Address, signed: bool, cd: Calldata): Result<bool> {
    if sender != c.entryPoint then Revert(NotAuthorized)
    else if !signed then Ok(false)
    else if cd.size < 68 || cd.selector.OtherSelector? then Ok(true)
    else
      var args :- Decode(cd);
      if args.ExecuteArgs? then Ask(w, c, cd.selector, args.call.target, args.call.value)
      else AskAll(w, c, args.targets, args.values)
  }

  function Zip(targets: seq<Address>, values: seq<Word>, datas: seq<Bytes>): (calls: seq<Call>)
    requires |targets| == |values| == |datas|
    ensures |calls| == |targets|
    ensures forall i :: 0 <= i < |calls| ==> calls[i] == Call(targets[i], values[i], datas[i])
  {
    seq(|targets|, i requires 0 <= i < |targets| => Call(targets[i], values[i], datas[i]))
  }

  /** The calls the account makes when this calldata runs; other selectors reach no code that pays. */
  function CallsOf(cd: Calldata): Result<seq<Call>> {
    var args :- Decode(cd);
    if args.ExecuteArgs? then Ok([args.call])
    else if |args.targets| == |args.values| == |args.datas| then Ok(Zip(args.targets, args.values, args.datas))
    else Revert(LengthMismatch)
  }

  function Perform(env: Env, c: Config, sender: Address, b: Balances, cd: Calldata): Result<Executed> {
    if sender != c.owner && sender != c.entryPoint then Revert(NotAuthorized)
    else
      var calls :- CallsOf(cd);
      if cd.args.ExecuteArgs? then Execute(env, c.self, b, cd.args.call) else Batch(env, c.self, b, calls)
  }

  /** Calldata turns into calls exactly when it decodes under one of the two selectors, a batch moreover having
      three lists of one length; the calls are then its entries in order. */
  lemma CallsExactly(cd: Calldata)
    ensures CallsOf(cd).Ok? <==>
            cd.size >= 100 &&
            (|| (cd.selector == ExecuteSelector && cd.args.ExecuteArgs?)
             || (&& cd.selector == ExecuteBatchSelector && cd.args.BatchArgs?
                 && |cd.args.targets| == |cd.args.values| == |cd.args.datas|))
    ensures CallsOf(cd).Ok? && cd.args.ExecuteArgs? ==> CallsOf(cd).value == [cd.args.call]
    ensures CallsOf(cd).Ok? && cd.args.BatchArgs? ==>
              && |CallsOf(cd).value| == |cd.args.targets|
              && forall i :: 0 <= i < |cd.args.targets| ==>
                   CallsOf(cd).value[i] == Call(cd.args.targets[i], cd.args.values[i], cd.args.datas[i])
  {
  }

  /** The length gate of validateUserOp skips no call that can decode. */
  lemma GateSkipsNothing(cd: Calldata)
    requires Decode(cd).Ok?
    ensures cd.size >= 68 && !cd.selector.OtherSelector?
  {
  }

  /** A batch passes exactly when it has a value for every target and every pair passes on its own. */
  lemma {:induction false} AskAllIsEach(w: Enforcer.World, c: Config, targets: seq<Address>, values: seq<Word>)
    ensures AskAll(w, c, targets, values) == Ok(true) <==>
            |targets| <= |values| &&
            forall i :: 0 <= i < |targets| ==> Ask(w, c, ExecuteBatchSelector, targets[i], values[i]) == Ok(true)
  {
    if targets != [] && values != [] {
      AskAllIsEach(w, c, targets[1..], values[1..]);
      assert forall i :: 0 < i < |targets| ==> targets[i] == targets[1..][i - 1];
      assert forall i :: 0 < i < |values| ==> values[i] == values[1..][i - 1];
    }
  }

  /** The enforcer refuses this pair, having accepted every pair before it. */
  predicate RefusesAt(w: Enforcer.World, c: Config, targets: seq<Address>, values: seq<Word>, i: nat) {
    && i < |targets| && i < |values|
    && Ask(w, c, ExecuteBatchSelector, targets[i], values[i]) == Ok(false)
    && forall j :: 0 <= j < i ==> Ask(w, c, ExecuteBatchSelector, targets[j], values[j]) == Ok(true)
  }

  lemma RefusesOneOn(w: Enforcer.World, c: Config, targets: seq<Address>, values: seq<Word>, i: nat)
    requires targets != [] && values != []
    requires Ask(w, c, ExecuteBatchSelector, targets[0], values[0]) == Ok(true)
    ensures RefusesAt(w, c, targets, values, i + 1) <==> RefusesAt(w, c, targets[1..], values[1..], i)
  {
    assert forall j :: 0 < j < |targets| ==> targets[j] == targets[1..][j - 1];
    assert forall j :: 0 < j < |values| ==> values[j] == values[1..][j - 1];
  }

  /** A batch is refused exactly when some pair is, all before it being accepted. */
  lemma {:induction false} AskAllRefusesExactly(w: Enforcer.World, c: Config, targets: seq<Address>, values: seq<Word>)
    ensures AskAll(w, c, targets, values) == Ok(false) <==> exists i: nat :: RefusesAt(w, c, targets, values, i)
  {
    if targets != [] && values != [] {
      if Ask(w, c, ExecuteBatchSelector, targets[0], values[0]) == Ok(true) {
        AskAllRefusesExactly(w, c, targets[1..], values[1..]);
        forall i: nat {
          RefusesOneOn(w, c, targets, values, i);
        }
        if i: nat :| RefusesAt(w, c, targets, values, i) {
          assert RefusesAt(w, c, targets[1..], values[1..], i - 1);
        }
        if i: nat :| RefusesAt(w, c, targets[1..], values[1..], i) {
          assert RefusesAt(w, c, targets, values, i + 1);
        }
      } else if Ask(w, c, ExecuteBatchSelector, targets[0], values[0]) == Ok(false) {
        assert RefusesAt(w, c, targets, values, 0);
      }
    }
  }

  /** Some calls that no enforcer is asked about: too little calldata, or another selector. */
  predicate Unscreened(cd: Calldata) {
    cd.size < 68 || (cd.selector != ExecuteSelector && cd.selector != ExecuteBatchSelector)
  }

  /** validateUserOp passes an operation exactly when it comes signed from the entry point and asks for nothing
      that is screened, for one call the enforcer accepts, or for a batch of which it accepts every pair. */
  lemma ScreenPassesExactly(w: Enforcer.World, c: Config, sender: Address, signed: bool, cd: Calldata)
    ensures Screen(w, c, sender, signed, cd) == Ok(true) <==>
            && sender == c.entryPoint && signed
            && (|| Unscreened(cd)
                || (&& cd.size >= 100 && cd.selector == ExecuteSelector && cd.args.ExecuteArgs?
                    && Ask(w, c, ExecuteSelector, cd.args.call.target, cd.args.call.value) == Ok(true))
                || (&& cd.size >= 100 && cd.selector == ExecuteBatchSelector && cd.args.BatchArgs?
                    && |cd.args.targets| <= |cd.args.values|
                    && forall i :: 0 <= i < |cd.args.targets| ==>
                         Ask(w, c, ExecuteBatchSelector, cd.args.targets[i], cd.args.values[i]) == Ok(true)))
  {
    if cd.args.BatchArgs? {
      AskAllIsEach(w, c, cd.args.targets, cd.args.values);
    }
  }

  /** It answers SIG_VALIDATION_FAILED exactly when an operation from the entry point is unsigned, or asks for a
      call the enforcer refuses, or for a batch of which it refuses some pair after accepting those before. */
  lemma ScreenRefusesExactly(w: Enforcer.World, c: Config, sender: Address, signed: bool, cd: Calldata)
    ensures Screen(w, c, sender, signed, cd) == Ok(false) <==>
            && sender == c.entryPoint
            && (|| !signed
                || (&& cd.size >= 100 && cd.selector == ExecuteSelector && cd.args.ExecuteArgs?
                    && Ask(w, c, ExecuteSelector, cd.args.call.target, cd.args.call.value) == Ok(false))
                || (&& cd.size >= 100 && cd.selector == ExecuteBatchSelector && cd.args.BatchArgs?
                    && exists i: nat :: RefusesAt(w, c, cd.args.targets, cd.args.values, i)))
  {
    if cd.args.BatchArgs? {
      AskAllRefusesExactly(w, c, cd.args.targets, cd.args.values);
    }
  }

  /** If a user operation returned 0 from validateUserOp and the same calldata then runs, every
      (target, value) pair it executes was accepted by the enforcer in that validation. */
  lemma ExecutedWasAccepted(w: Enforcer.World, env: Env, c: Config, signed: bool, b: Balances, cd: Calldata)
    requires Screen(w, c, c.entryPoint, signed, cd) == Ok(true)
    requires Perform(env, c, c.entryPoint, b, cd).Ok?
    ensures CallsOf(cd).Ok?
    ensures forall call :: call in CallsOf(cd).value ==> Ask(w, c, cd.selector, call.target, call.value) == Ok(true)
    ensures Perform(env, c, c.entryPoint, b, cd)
            == if cd.args.ExecuteArgs? then Execute(env, c.self, b, cd.args.call)
               else Batch(env, c.self, b, CallsOf(cd).value)
  {
    GateSkipsNothing(cd);
    if cd.args.BatchArgs? {
      AskAllIsEach(w, c, cd.args.targets, cd.args.values);
    }
  }

  lemma RepetitionPasses(w: Enforcer.World, c: Config, target: Address, value: Word, n: nat)
    requires Ask(w, c, ExecuteBatchSelector, target, value) == Ok(true)
    ensures AskAll(w, c, Copies(target, n), Copies(value, n)) == Ok(true)
  {
    AskAllIsEach(w, c, Copies(target, n), Copies(value, n));
  }

  /** The values of an accepted batch total at most M. */
  ghost predicate BatchesWithin(w: Enforcer.World, c: Config, M: nat) {
    forall targets, values: seq<Word> ::
      |targets| == |values| && AskAll(w, c, targets, values) == Ok(true) ==> Sum(values) <= M
  }

  lemma PositivePairIsUnbounded(w: Enforcer.World, c: Config, target: Address, value: Word, M: nat)
    requires Ask(w, c, ExecuteBatchSelector, target, value) == Ok(true) && value > 0
    ensures !BatchesWithin(w, c, M)
  {
    RepetitionPasses(w, c, target, value, M + 1);
    SumOfEqual(Copies(value, M + 1), value);
    MulMonotone(M + 1, 1, value);
  }

  lemma OnlyFreePairsIsZero(w: Enforcer.World, c: Config)
    requires forall target, value :: Ask(w, c, ExecuteBatchSelector, target, value) == Ok(true) ==> value == 0
    ensures BatchesWithin(w, c, 0)
  {
    forall targets, values: seq<Word> | |targets| == |values| && AskAll(w, c, targets, values) == Ok(true)
      ensures Sum(values) <= 0
    {
      AskAllIsEach(w, c, targets, values);
      SumOfEqual(values, 0);
    }
  }

  /** Screening adds nothing up, because validation records no usage: accepted batches are bounded at all
      exactly when no pair with a positive value is accepted on its own. */
  lemma BatchesBoundedExactly(w: Enforcer.World, c: Config)
    ensures (exists M: nat :: BatchesWithin(w, c, M)) <==>
            forall target, value :: Ask(w, c, ExecuteBatchSelector, target, value) == Ok(true) ==> value == 0
  {
    if target, value: Word :| Ask(w, c, ExecuteBatchSelector, target, value) == Ok(true) && value != 0 {
      forall M: nat
        ensures !BatchesWithin(w, c, M)
      {
        PositivePairIsUnbounded(w, c, target, value, M);
      }
    } else {
      OnlyFreePairsIsZero(w, c);
    }
  }

  /** The prefund ignores the outcome of its transfer. */
  function Prefund(b: Balances, self: Address, entryPoint: Address, missing: nat, accepted: bool): Balances {
    var paid := Pay(b, self, entryPoint, missing, accepted);
    if missing > 0 && paid.Some? then paid.value else b
  }

  /** It moves the missing funds exactly when the account has them and the entry point takes them. */
  lemma PrefundMoves(b: Balances, self: Address, entryPoint: Address, missing: nat, accepted: bool, x: Address)
    ensures Balance(Prefund(b, self, entryPoint, missing, accepted), x)
         == Balance(b, x) + if missing > Balance(b, self) || !accepted then 0
                            else (if x == entryPoint then missing else 0) - (if x == self then missing else 0)
  {
  }
}
