/** What an account can send on a day when each of its operations is validated, executed and recorded. */
module Spending {
  import opened Arithmetic
  import opened Evm
  import opened Ledger
  import Account
  import Enforcer
  import Guardrail
  import Identity
  import Oracle
  import Registry

  datatype State = State(world: Enforcer.World, balances: Balances)

  /** A call of anyone to the contracts, a signed user operation of the account with the ETH the entry point
      is missing for it, or anything else that moves ETH: deposits, batches, calls by the owner. */
  datatype Step =
    | Other(step: Guardrail.Step)
    | Operate(env: Account.Env, call: Account.Call, missing: Word, taken: bool)
    | Elsewhere(balances: Balances)

  /** The calldata of one execute. */
  function ExecuteData(call: Account.Call): Account.Calldata {
    Account.Calldata(Account.DECODABLE_SIZE + |call.data|, ExecuteSelector, Account.ExecuteArgs(call))
  }

  /** The guardrail's share of an operation: the same question, and the recording of the value asked about. */
  function Recording(c: Account.Config, call: Account.Call): Guardrail.Step {
    Guardrail.Act(Account.KeyOf(c, ExecuteSelector, call.target), Account.AskedData(c, call.target, call.value))
  }

  /** validateUserOp with its prefund, execute and recordUsage in a row; nothing happens unless all succeed. */
  function Operated(c: Account.Config, s: State, step: Step): Result<State>
    requires step.Operate?
  {
    var valid :- Account.Screen(s.world, c, c.entryPoint, true, ExecuteData(step.call));
    if !valid then Revert(NotAuthorized)
    else
      var prefunded := Account.Prefund(s.balances, c.self, c.entryPoint, step.missing, step.taken);
      var done :- Account.Perform(step.env, c, c.entryPoint, prefunded, ExecuteData(step.call));
      var world :- Guardrail.Effect(s.world, Recording(c, step.call));
      Ok(State(world, done.balances))
  }

  function Next(c: Account.Config, s: State, step: Step): State {
    match step
    case Other(step) => s.(world := Guardrail.Next(s.world, step))
    case Elsewhere(balances) => s.(balances := balances)
    case Operate(_, _, _, _) =>
      var r := Operated(c, s, step);
      if r.Ok? then r.value else s
  }

  function Difference(a: nat, b: nat): nat {
    if a < b then b - a else a - b
  }

  /** The step is an operation that succeeds on this UTC day. */
  predicate OperatesOn(c: Account.Config, s: State, step: Step, day: nat) {
    step.Operate? && s.world.block.now / DAY == day && Operated(c, s, step).Ok?
  }

  /** The sum over a run of the changes that operations calling these targets on this day make to the
      balance of x. */
  function Moved(c: Account.Config, s: State, steps: seq<Step>, targets: set<Address>, day: nat, x: Address): nat
    decreases steps
  {
    if steps == [] then 0
    else
      var s' := Next(c, s, steps[0]);
      Moved(c, s', steps[1..], targets, day, x)
      + if OperatesOn(c, s, steps[0], day) && steps[0].call.target in targets
        then Difference(Balance(s.balances, x), Balance(s'.balances, x)) else 0
  }

  /** What the prefund of an operation moves for x, which it does for the account and the entry point alone. */
  function PrefundOf(c: Account.Config, b: Balances, step: Step, x: Address): nat
    requires step.Operate?
  {
    if (x == c.self || x == c.entryPoint) && Pay(b, c.self, c.entryPoint, step.missing, step.taken).Some?
    then step.missing else 0
  }

  /** The sum of the prefunds of the same operations. */
  function Prefunds(c: Account.Config, s: State, steps: seq<Step>, targets: set<Address>, day: nat, x: Address): nat
    decreases steps
  {
    if steps == [] then 0
    else
      Prefunds(c, Next(c, s, steps[0]), steps[1..], targets, day, x)
      + if OperatesOn(c, s, steps[0], day) && steps[0].call.target in targets
        then PrefundOf(c, s.balances, steps[0], x) else 0
  }

  /** The targets that operations call on this day. */
  function Called(c: Account.Config, s: State, steps: seq<Step>, day: nat): set<Address>
    decreases steps
  {
    if steps == [] then {}
    else
      Called(c, Next(c, s, steps[0]), steps[1..], day)
      + if OperatesOn(c, s, steps[0], day) then {steps[0].call.target} else {}
  }

  /** Counting ETH in this token takes no amount for less than it is. */
  predicate AtPar(w: Enforcer.World, token: Address) {
    var rate := Enforcer.RateFor(w.enforcer, w.block, token);
    rate.Ok? ==> rate.value.num >= rate.value.den
  }

  lemma ParCounts(rate: Oracle.Rate, amount: Word)
    requires rate.num >= rate.den > 0 && Oracle.Convert(rate, amount).Ok?
    ensures Oracle.Convert(rate, amount).value >= amount
  {
    MulMonotone(amount, rate.den, rate.num);
    Oracle.ConvertIsFloor(rate, amount);
    var v := Oracle.Convert(rate, amount).value;
    if v < amount {
      MulMonotone(rate.den, v + 1, amount);
    }
  }

  /** A rate takes no amount for less than it is exactly when it is at least one. */
  lemma ParExactly(rate: Oracle.Rate)
    requires 0 < rate.den < UINT256_LIMIT
    ensures (forall amount: Word :: Oracle.Convert(rate, amount).Ok? ==> Oracle.Convert(rate, amount).value >= amount)
            <==> rate.num >= rate.den
  {
    if rate.num >= rate.den {
      forall amount: Word | Oracle.Convert(rate, amount).Ok?
        ensures Oracle.Convert(rate, amount).value >= amount
      {
        ParCounts(rate, amount);
      }
    } else {
      QuotientIs(rate.num, rate.den, 0, rate.num);
      assert Oracle.Convert(rate, 1) == Ok(0);
    }
  }

  lemma BelowParUndervalues(rate: Oracle.Rate, amount: Word)
    requires rate.num < rate.den && amount > 0 && amount * rate.num < UINT256_LIMIT
    ensures Oracle.Convert(rate, amount).Ok? && Oracle.Convert(rate, amount).value < amount
  {
    var v, rest := Divide(amount * rate.num, rate.den);
    MulMonotone(amount, rate.num + 1, rate.den);
    Distribute(amount, rate.num, 1);
    if v >= amount {
      MulMonotone(rate.den, amount, v);
    }
  }

  /** A rate lets no amount above a cap through as if it were within, exactly when it is at least one. */
  lemma CapParExactly(rate: Oracle.Rate, D: Word)
    requires rate.den > 0 && D + 1 < UINT256_LIMIT && (D + 1) * rate.num < UINT256_LIMIT
    ensures (forall amount: Word ::
               Oracle.Convert(rate, amount).Ok? && Oracle.Convert(rate, amount).value <= D ==> amount <= D)
            <==> rate.num >= rate.den
  {
    if rate.num >= rate.den {
      forall amount: Word | Oracle.Convert(rate, amount).Ok? && Oracle.Convert(rate, amount).value <= D
        ensures amount <= D
      {
        ParCounts(rate, amount);
      }
    } else {
      BelowParUndervalues(rate, D + 1);
      assert Oracle.Convert(rate, D + 1).value <= D;
    }
  }

  /** The agent's permissions are capped whenever it acts on the target, usage is recorded there only by
      acting, and the account operates there only while the target, taken for a token, is at par. */
  ghost predicate DisciplinedStep(c: Account.Config, s: State, step: Step, target: Address, D: nat, N: nat) {
    match step
    case Other(step) => Guardrail.DisciplinedStep(s.world, step, Account.KeyOf(c, ExecuteSelector, target), D, N)
    case Elsewhere(_) => true
    case Operate(_, call, _, _) =>
      && Guardrail.DisciplinedStep(s.world, Recording(c, call), Account.KeyOf(c, ExecuteSelector, target), D, N)
      && (call.target == target ==> AtPar(s.world, target))
  }

  ghost predicate Disciplined(c: Account.Config, s: State, steps: seq<Step>, target: Address, D: nat, N: nat)
    decreases steps
  {
    steps != [] ==>
      && DisciplinedStep(c, s, steps[0], target, D, N)
      && Disciplined(c, Next(c, s, steps[0]), steps[1..], target, D, N)
  }

  /** An execute changes no balance by more than the value of the call. */
  lemma ExecuteMovesValue(env: Account.Env, self: Address, b: Balances, call: Account.Call, x: Address)
    requires Account.Execute(env, self, b, call).Ok?
    ensures Difference(Balance(b, x), Balance(Account.Execute(env, self, b, call).value.balances, x)) <= call.value
  {
    Account.ExecuteLedger(env, self, b, call, x);
  }

  lemma VolumeGrows(w: Enforcer.World, step: Guardrail.Step, k: Enforcer.Key, day: nat)
    ensures Enforcer.Volume(w.enforcer.log, k, day) <= Enforcer.Volume(Guardrail.Next(w, step).enforcer.log, k, day)
  {
    var log, log' := w.enforcer.log, Guardrail.Next(w, step).enforcer.log;
    Guardrail.NextLog(w, step);
    if log' != log {
      Enforcer.LogAppend(log, log'[|log|], k, day);
    }
  }

  lemma AtParCounts(w: Enforcer.World, data: Enforcer.ActionData)
    requires !data.Short? && AtPar(w, data.token) && Enforcer.EthValue(w.enforcer, w.block, data).Ok?
    ensures Enforcer.EthValue(w.enforcer, w.block, data).value >= data.value
  {
    ParCounts(Enforcer.RateFor(w.enforcer, w.block, data.token).value, data.value);
  }

  /** At par an accepted action records at least its amount. */
  lemma AmountIsRecorded(w: Enforcer.World, w': Enforcer.World, k: Enforcer.Key, data: Enforcer.ActionData,
                         D: nat, N: nat)
    requires Guardrail.Inv(w) && Guardrail.Capped(w, k.agentId, D, N) && !data.Short? && AtPar(w, data.token)
    requires Guardrail.Effect(w, Guardrail.Act(k, data)) == Ok(w')
    ensures var day := w.block.now / DAY;
            Enforcer.Volume(w.enforcer.log, k, day) + data.value <= Enforcer.Volume(w'.enforcer.log, k, day)
  {
    Guardrail.ActAdds(w, k, data, D, N);
    AtParCounts(w, data);
    var v := Enforcer.EthValue(w.enforcer, w.block, data).value;
    Enforcer.LogAppend(w.enforcer.log, Enforcer.Usage(w.block.now, k, v), k, w.block.now / DAY);
  }

  lemma PrefundMoves(c: Account.Config, b: Balances, step: Step, x: Address)
    requires step.Operate?
    ensures var b' := Account.Prefund(b, c.self, c.entryPoint, step.missing, step.taken);
            Difference(Balance(b, x), Balance(b', x)) <= PrefundOf(c, b, step, x)
  {
  }

  /** An operation moves at most its prefund and the value of its call. */
  lemma OperationMovesValue(c: Account.Config, s: State, step: Step, x: Address)
    requires step.Operate? && Operated(c, s, step).Ok?
    ensures Difference(Balance(s.balances, x), Balance(Operated(c, s, step).value.balances, x))
            <= step.call.value + PrefundOf(c, s.balances, step, x)
    ensures Guardrail.Effect(s.world, Recording(c, step.call)) == Ok(Operated(c, s, step).value.world)
  {
    var prefunded := Account.Prefund(s.balances, c.self, c.entryPoint, step.missing, step.taken);
    PrefundMoves(c, s.balances, step, x);
    ExecuteMovesValue(step.env, c.self, prefunded, step.call, x);
  }

  lemma ValueIsRecorded(c: Account.Config, w: Enforcer.World, w': Enforcer.World, call: Account.Call, D: nat, N: nat)
    requires Guardrail.Inv(w) && Guardrail.Capped(w, c.agentId, D, N) && AtPar(w, call.target)
    requires Guardrail.Effect(w, Recording(c, call)) == Ok(w')
    ensures var k, day := Account.KeyOf(c, ExecuteSelector, call.target), w.block.now / DAY;
            Enforcer.Volume(w.enforcer.log, k, day) + call.value <= Enforcer.Volume(w'.enforcer.log, k, day)
  {
    AmountIsRecorded(w, w', Account.KeyOf(c, ExecuteSelector, call.target),
                     Account.AskedData(c, call.target, call.value), D, N);
  }

  /** A step leaves the guardrail as it was or takes it through one disciplined step. */
  lemma StepOfGuardrail(c: Account.Config, s: State, step: Step, target: Address, D: nat, N: nat)
      returns (g: Guardrail.Step)
    requires DisciplinedStep(c, s, step, target, D, N)
    ensures Next(c, s, step).world == s.world ||
            (Guardrail.DisciplinedStep(s.world, g, Account.KeyOf(c, ExecuteSelector, target), D, N)
             && Next(c, s, step).world == Guardrail.Next(s.world, g))
  {
    g := if step.Operate? then Recording(c, step.call)
         else if step.Other? then step.step
         else Guardrail.NextBlock(s.world.block);
  }

  lemma StepIsRecorded(c: Account.Config, s: State, step: Step, target: Address, D: nat, N: nat, day: nat, x: Address)
    requires Guardrail.Inv(s.world) && DisciplinedStep(c, s, step, target, D, N)
    requires Guardrail.WithinCaps(s.world.enforcer.log, Account.KeyOf(c, ExecuteSelector, target), D, N)
    ensures var k, s' := Account.KeyOf(c, ExecuteSelector, target), Next(c, s, step);
            && Guardrail.Inv(s'.world) && Guardrail.WithinCaps(s'.world.enforcer.log, k, D, N)
            && Enforcer.Volume(s.world.enforcer.log, k, day) <= Enforcer.Volume(s'.world.enforcer.log, k, day)
            && (OperatesOn(c, s, step, day) && step.call.target == target ==>
                  Enforcer.Volume(s.world.enforcer.log, k, day)
                  + Difference(Balance(s.balances, x), Balance(s'.balances, x))
                  <= Enforcer.Volume(s'.world.enforcer.log, k, day) + PrefundOf(c, s.balances, step, x))
  {
    var k := Account.KeyOf(c, ExecuteSelector, target);
    var g := StepOfGuardrail(c, s, step, target, D, N);
    if Next(c, s, step).world != s.world {
      Guardrail.NextKeepsInv(s.world, g);
      Guardrail.NextKeepsCaps(s.world, g, k, D, N);
      VolumeGrows(s.world, g, k, day);
    }
    if OperatesOn(c, s, step, day) && step.call.target == target {
      OperationMovesValue(c, s, step, x);
      ValueIsRecorded(c, s.world, Next(c, s, step).world, step.call, D, N);
    }
  }

  lemma {:induction false} RunIsRecorded(c: Account.Config, s: State, steps: seq<Step>, target: Address,
                                         D: nat, N: nat, day: nat, x: Address)
    requires Guardrail.Inv(s.world) && Disciplined(c, s, steps, target, D, N)
    requires Guardrail.WithinCaps(s.world.enforcer.log, Account.KeyOf(c, ExecuteSelector, target), D, N)
    ensures Enforcer.Volume(s.world.enforcer.log, Account.KeyOf(c, ExecuteSelector, target), day)
            + Moved(c, s, steps, {target}, day, x) <= D + Prefunds(c, s, steps, {target}, day, x)
    decreases steps
  {
    if steps != [] {
      StepIsRecorded(c, s, steps[0], target, D, N, day, x);
      RunIsRecorded(c, Next(c, s, steps[0]), steps[1..], target, D, N, day, x);
    }
  }

  // ----- over all targets -----

  /** Movements and prefunds add up over disjoint sets of targets. */
  lemma {:induction false} MovedSplits(c: Account.Config, s: State, steps: seq<Step>, targets: set<Address>,
                                       target: Address, day: nat, x: Address)
    requires target in targets
    ensures Moved(c, s, steps, targets, day, x)
         == Moved(c, s, steps, targets - {target}, day, x) + Moved(c, s, steps, {target}, day, x)
    ensures Prefunds(c, s, steps, targets, day, x)
         == Prefunds(c, s, steps, targets - {target}, day, x) + Prefunds(c, s, steps, {target}, day, x)
    decreases steps
  {
    if steps != [] {
      MovedSplits(c, Next(c, s, steps[0]), steps[1..], targets, target, day, x);
    }
  }

  /** Only targets that are called count. */
  lemma {:induction false} MovedByCalled(c: Account.Config, s: State, steps: seq<Step>, called: set<Address>,
                                         targets: set<Address>, day: nat, x: Address)
    requires Called(c, s, steps, day) <= called
    ensures Moved(c, s, steps, targets * called, day, x) == Moved(c, s, steps, targets, day, x)
    ensures Prefunds(c, s, steps, targets * called, day, x) == Prefunds(c, s, steps, targets, day, x)
    decreases steps
  {
    if steps != [] {
      MovedByCalled(c, Next(c, s, steps[0]), steps[1..], called, targets, day, x);
    }
  }

  lemma {:induction false} NoTargetsMoveNothing(c: Account.Config, s: State, steps: seq<Step>, day: nat, x: Address)
    ensures Moved(c, s, steps, {}, day, x) == 0
    decreases steps
  {
    if steps != [] {
      NoTargetsMoveNothing(c, Next(c, s, steps[0]), steps[1..], day, x);
    }
  }

  lemma {:induction false} OthersTakeNoPrefund(c: Account.Config, s: State, steps: seq<Step>, targets: set<Address>,
                                               day: nat, x: Address)
    requires x != c.self && x != c.entryPoint
    ensures Prefunds(c, s, steps, targets, day, x) == 0
    decreases steps
  {
    if steps != [] {
      OthersTakeNoPrefund(c, Next(c, s, steps[0]), steps[1..], targets, day, x);
    }
  }

  lemma {:induction false} TargetsAddUp(block: Block, owner: Address, c: Account.Config, balances: Balances,
                                        steps: seq<Step>, targets: set<Address>, D: nat, N: nat, day: nat, x: Address)
    requires forall t ::
               t in targets ==> Disciplined(c, State(Guardrail.Genesis(block, owner), balances), steps, t, D, N)
    ensures var s := State(Guardrail.Genesis(block, owner), balances);
            Moved(c, s, steps, targets, day, x) <= |targets| * D + Prefunds(c, s, steps, targets, day, x)
    decreases |targets|
  {
    var s := State(Guardrail.Genesis(block, owner), balances);
    if targets == {} {
      NoTargetsMoveNothing(c, s, steps, day, x);
    } else {
      var t :| t in targets;
      Guardrail.GenesisInv(block, owner);
      RunIsRecorded(c, s, steps, t, D, N, day, x);
      TargetsAddUp(block, owner, c, balances, steps, targets - {t}, D, N, day, x);
      MovedSplits(c, s, steps, targets, t, day, x);
      Distribute(D, |targets - {t}|, 1);
    }
  }

  /** Over every disciplined run from deployment, the operations of an account that call some targets on one
      UTC day change the balance of any address by at most the daily cap for each distinct target they call,
      not counting prefunds, which only the account and the entry point see. */
  lemma DailyOutflowCapped(block: Block, owner: Address, c: Account.Config, balances: Balances, steps: seq<Step>,
                           targets: set<Address>, D: nat, N: nat, day: nat, x: Address)
    requires var s := State(Guardrail.Genesis(block, owner), balances);
             forall t :: t in targets * Called(c, s, steps, day) ==> Disciplined(c, s, steps, t, D, N)
    ensures var s := State(Guardrail.Genesis(block, owner), balances);
            var bound := |targets * Called(c, s, steps, day)| * D;
            && Moved(c, s, steps, targets, day, x) <= bound + Prefunds(c, s, steps, targets, day, x)
            && (x != c.self && x != c.entryPoint ==> Moved(c, s, steps, targets, day, x) <= bound)
  {
    var s := State(Guardrail.Genesis(block, owner), balances);
    var called := Called(c, s, steps, day);
    TargetsAddUp(block, owner, c, balances, steps, targets * called, D, N, day, x);
    MovedByCalled(c, s, steps, called, targets, day, x);
    if x != c.self && x != c.entryPoint {
      OthersTakeNoPrefund(c, s, steps, targets, day, x);
    }
  }

  // ----- the bound is met -----

  /** Every address takes ETH, and no fee is charged. */
  function FreeEnv(): Account.Env {
    Account.Env(_ => Ok(0), Null, Account.Callees((_, _) => true, _ => true))
  }

  function Payment(target: Address, D: Word): Step {
    Operate(FreeEnv(), Account.Call(target, D, []), 0, true)
  }

  /** One payment of D to each target. */
  function Payments(targets: seq<Address>, D: Word): seq<Step> {
    if targets == [] then [] else [Payment(targets[0], D)] + Payments(targets[1..], D)
  }

  function Others(steps: seq<Guardrail.Step>): seq<Step> {
    if steps == [] then [] else [Other(steps[0])] + Others(steps[1..])
  }

  /** The agent has one live permission, capped at D and N, and there is no oracle. */
  ghost predicate Ready(c: Account.Config, w: Enforcer.World, D: Word, N: Word) {
    && w.block.now == 5 && w.identity.IsActive(c.agentId) && w.enforcer.oracle == None
    && w.registry.PermissionsOf(c.agentId) == [Guardrail.GRANTED_ID]
    && Registry.IsValid(w.registry, 5, Guardrail.GRANTED_ID)
    && w.enforcer.ConstraintsOf(Guardrail.GRANTED_ID) == Guardrail.DailyCaps(D, N)
  }

  ghost predicate Unused(c: Account.Config, w: Enforcer.World, target: Address) {
    Enforcer.GetUsage(w.enforcer, w.block.now, Account.KeyOf(c, ExecuteSelector, target)) == Enforcer.Today(0, 0)
  }

  /** An operation of any value up to D on an unused target is accepted and uses that target alone. */
  lemma PaymentIsRecorded(c: Account.Config, w: Enforcer.World, call: Account.Call, D: Word, N: Word)
    requires Ready(c, w, D, N) && Unused(c, w, call.target) && call.value <= D && D > 0 && N > 0
    ensures Account.Ask(w, c, ExecuteSelector, call.target, call.value) == Ok(true)
    ensures var r := Guardrail.Effect(w, Recording(c, call));
            && r.Ok? && Ready(c, r.value, D, N)
            && forall t :: t != call.target && Unused(c, w, t) ==> Unused(c, r.value, t)
    ensures Guardrail.Capped(w, c.agentId, D, N)
  {
    var k, data := Account.KeyOf(c, ExecuteSelector, call.target), Account.AskedData(c, call.target, call.value);
    assert Enforcer.Judge(w, Guardrail.GRANTED_ID, k, data) == Ok(true);
    assert Enforcer.RecordUsage(w.enforcer, w.block.now, k, call.value).Ok?;
  }

  lemma FreeExecute(self: Address, b: Balances, call: Account.Call)
    requires Balance(b, self) >= call.value
    ensures var r := Account.Execute(FreeEnv(), self, b, call);
            && r.Ok?
            && Balance(r.value.balances, self) == Balance(b, self) - (if call.target == self then 0 else call.value)
  {
  }

  /** What an operation that pays no fee does. */
  lemma FreeOperation(c: Account.Config, s: State, call: Account.Call, missing: Word, D: Word, N: Word)
    requires Ready(c, s.world, D, N) && Unused(c, s.world, call.target) && call.value <= D && D > 0 && N > 0
    requires Balance(Account.Prefund(s.balances, c.self, c.entryPoint, missing, true), c.self) >= call.value
    ensures var prefunded := Account.Prefund(s.balances, c.self, c.entryPoint, missing, true);
            var r := Operated(c, s, Operate(FreeEnv(), call, missing, true));
            && r.Ok? && Guardrail.Effect(s.world, Recording(c, call)) == Ok(r.value.world)
            && Balance(r.value.balances, c.self)
               == Balance(prefunded, c.self) - (if call.target == c.self then 0 else call.value)
  {
    PaymentIsRecorded(c, s.world, call, D, N);
    FreeExecute(c.self, Account.Prefund(s.balances, c.self, c.entryPoint, missing, true), call);
  }

  /** An operation of any value up to D on an unused target succeeds and uses that target alone. */
  lemma OperationPasses(c: Account.Config, s: State, call: Account.Call, missing: Word, D: Word, N: Word)
      returns (s': State)
    requires Ready(c, s.world, D, N) && Unused(c, s.world, call.target) && call.value <= D && D > 0 && N > 0
    requires Balance(Account.Prefund(s.balances, c.self, c.entryPoint, missing, true), c.self) >= call.value
    ensures var step := Operate(FreeEnv(), call, missing, true);
            OperatesOn(c, s, step, 0) && s' == Next(c, s, step) && forall t :: DisciplinedStep(c, s, step, t, D, N)
    ensures Ready(c, s'.world, D, N)
    ensures forall t :: t != call.target && Unused(c, s.world, t) ==> Unused(c, s'.world, t)
    ensures Balance(s'.balances, c.self)
         == Balance(Account.Prefund(s.balances, c.self, c.entryPoint, missing, true), c.self)
            - (if call.target == c.self then 0 else call.value)
  {
    s' := Next(c, s, Operate(FreeEnv(), call, missing, true));
    PaymentIsRecorded(c, s.world, call, D, N);
    FreeOperation(c, s, call, missing, D, N);
  }

  /** Distinct unused targets other than the account. */
  ghost predicate Payable(c: Account.Config, w: Enforcer.World, targets: seq<Address>, all: set<Address>) {
    && Identity.NoDuplicates(targets)
    && forall i :: 0 <= i < |targets| ==>
         targets[i] in all && targets[i] != c.self && Unused(c, w, targets[i])
  }

  lemma RestPayable(c: Account.Config, w: Enforcer.World, w': Enforcer.World, targets: seq<Address>, all: set<Address>)
    requires targets != [] && Payable(c, w, targets, all)
    requires forall t :: t != targets[0] && Unused(c, w, t) ==> Unused(c, w', t)
    ensures Payable(c, w', targets[1..], all)
  {
  }

  lemma FirstOperation(c: Account.Config, s: State, s': State, steps: seq<Step>, targets: set<Address>,
                       t: Address, D: nat, N: nat, day: nat, x: Address)
    requires steps != [] && OperatesOn(c, s, steps[0], day) && steps[0].call.target in targets
    requires s' == Next(c, s, steps[0]) && DisciplinedStep(c, s, steps[0], t, D, N)
    ensures Disciplined(c, s', steps[1..], t, D, N) ==> Disciplined(c, s, steps, t, D, N)
    ensures Moved(c, s, steps, targets, day, x)
         == Moved(c, s', steps[1..], targets, day, x) + Difference(Balance(s.balances, x), Balance(s'.balances, x))
  {
  }

  /** What the payments come to. */
  function Due(targets: seq<Address>, D: nat): nat {
    if targets == [] then 0 else D + Due(targets[1..], D)
  }

  lemma {:induction false} DueIs(targets: seq<Address>, D: nat)
    ensures Due(targets, D) == |targets| * D
  {
    if targets != [] {
      DueIs(targets[1..], D);
      Distribute(D, |targets| - 1, 1);
    }
  }

  /** The first payment leads to a state from which the rest can be paid, having moved D. */
  lemma FirstPayment(c: Account.Config, s: State, targets: seq<Address>, all: set<Address>,
                     D: Word, N: Word, t: Address) returns (s': State)
    requires targets != [] && Ready(c, s.world, D, N) && D > 0 && N > 0 && Payable(c, s.world, targets, all)
    requires Balance(s.balances, c.self) >= D
    ensures Ready(c, s'.world, D, N) && Payable(c, s'.world, targets[1..], all)
    ensures Balance(s'.balances, c.self) == Balance(s.balances, c.self) - D
    ensures Disciplined(c, s', Payments(targets[1..], D), t, D, N) ==> Disciplined(c, s, Payments(targets, D), t, D, N)
    ensures Moved(c, s, Payments(targets, D), all, 0, c.self)
         == Moved(c, s', Payments(targets[1..], D), all, 0, c.self) + D
  {
    Account.PrefundMoves(s.balances, c.self, c.entryPoint, 0, true, c.self);
    s' := OperationPasses(c, s, Account.Call(targets[0], D, []), 0, D, N);
    RestPayable(c, s.world, s'.world, targets, all);
    assert Payments(targets, D)[1..] == Payments(targets[1..], D);
    FirstOperation(c, s, s', Payments(targets, D), all, t, D, N, 0, c.self);
  }

  lemma {:induction false} PaymentsPass(c: Account.Config, s: State, targets: seq<Address>, all: set<Address>,
                                        D: Word, N: Word, t: Address)
    requires Ready(c, s.world, D, N) && D > 0 && N > 0 && Payable(c, s.world, targets, all)
    requires Balance(s.balances, c.self) >= Due(targets, D)
    ensures Disciplined(c, s, Payments(targets, D), t, D, N)
    ensures Moved(c, s, Payments(targets, D), all, 0, c.self) == Due(targets, D)
    decreases |targets|
  {
    if targets != [] {
      var s' := FirstPayment(c, s, targets, all, D, N, t);
      PaymentsPass(c, s', targets[1..], all, D, N, t);
    }
  }

  /** Calls to the contracts that record nothing leave discipline and movements to the rest of the run. */
  lemma {:induction false} OthersFirst(c: Account.Config, s: State, quiet: seq<Guardrail.Step>, steps: seq<Step>,
                                       targets: set<Address>, t: Address, D: nat, N: nat, day: nat, x: Address)
    requires forall i :: 0 <= i < |quiet| ==> !quiet[i].Record? && !quiet[i].Act?
    ensures var s' := State(Guardrail.Run(s.world, quiet), s.balances);
            && Moved(c, s, Others(quiet) + steps, targets, day, x) == Moved(c, s', steps, targets, day, x)
            && (Disciplined(c, s', steps, t, D, N) ==> Disciplined(c, s, Others(quiet) + steps, t, D, N))
    decreases quiet
  {
    if quiet == [] {
      assert Others(quiet) + steps == steps;
    } else {
      assert (Others(quiet) + steps)[1..] == Others(quiet[1..]) + steps;
      OthersFirst(c, Next(c, s, Other(quiet[0])), quiet[1..], steps, targets, t, D, N, day, x);
    }
  }

  /** The cap is one for each target: for any distinct targets some disciplined run from deployment sends D to
      each of them on one day. */
  lemma DailyOutflowIsTight(block: Block, owner: Address, c: Account.Config, targets: seq<Address>,
                            all: set<Address>, D: Word, N: Word, t: Address)
    requires block.now == 5 && c.agentId == Raw(1) && D > 0 && N > 0
    requires Identity.NoDuplicates(targets) && c.self !in targets && forall u :: u in targets ==> u in all
    ensures var s := State(Guardrail.Genesis(block, owner), map[c.self := |targets| * D]);
            var steps := Others(Guardrail.ConstrainedGrant(Guardrail.DailyCaps(D, N))) + Payments(targets, D);
            Disciplined(c, s, steps, t, D, N) && Moved(c, s, steps, all, 0, c.self) == |targets| * D
  {
    DueIs(targets, D);
    var grant := Guardrail.ConstrainedGrant(Guardrail.DailyCaps(D, N));
    var s := State(Guardrail.Genesis(block, owner), map[c.self := |targets| * D]);
    Guardrail.ConstrainedGrantState(block, owner, Guardrail.DailyCaps(D, N));
    PaymentsPass(c, State(Guardrail.Run(s.world, grant), s.balances), targets, all, D, N, t);
    OthersFirst(c, s, grant, Payments(targets, D), all, t, D, N, 0, c.self);
  }

  // ----- what escapes the cap: prefunds, batches, targets below par -----

  /** Prefunds are not capped: under a daily cap of D, an operation without value moves D + 1 out of the account. */
  lemma PrefundEscapesCap(block: Block, owner: Address, c: Account.Config, D: Word, N: Word)
    requires block.now == 5 && c.agentId == Raw(1) && c.self != c.entryPoint && N > 0 && 0 < D < UINT256_LIMIT - 1
    ensures var s := State(Guardrail.CappedWorld(block, owner, D, N), map[c.self := D + 1]);
            var step := Operate(FreeEnv(), Account.Call(Null, 0, []), D + 1, true);
            Disciplined(c, s, [step], Null, D, N) && Moved(c, s, [step], {Null}, 0, c.self) == D + 1
  {
    var s := State(Guardrail.CappedWorld(block, owner, D, N), map[c.self := D + 1]);
    var step := Operate(FreeEnv(), Account.Call(Null, 0, []), D + 1, true);
    Guardrail.ConstrainedGrantState(block, owner, Guardrail.DailyCaps(D, N));
    Account.PrefundMoves(s.balances, c.self, c.entryPoint, D + 1, true, c.self);
    var s' := OperationPasses(c, s, step.call, D + 1, D, N);
    FirstOperation(c, s, s', [step], {Null}, Null, D, N, 0, c.self);
  }

  /** With a daily cap of D, a batch of any number of values D passes. */
  lemma BatchesEscapeCap(block: Block, owner: Address, c: Account.Config, D: Word, N: Word, target: Address, n: nat)
    requires block.now == 5 && c.agentId == Raw(1) && D > 0 && N > 0
    ensures var w := Guardrail.CappedWorld(block, owner, D, N);
            && Guardrail.Capped(w, c.agentId, D, N)
            && Account.AskAll(w, c, Copies(target, n), Copies(D, n)) == Ok(true) && Sum(Copies(D, n)) == n * D
  {
    var w := Guardrail.CappedWorld(block, owner, D, N);
    var k := Account.KeyOf(c, ExecuteBatchSelector, target);
    var data := Account.AskedData(c, target, D);
    Guardrail.ConstrainedGrantState(block, owner, Guardrail.DailyCaps(D, N));
    assert Enforcer.Judge(w, Guardrail.GRANTED_ID, k, data) == Ok(true);
    Account.RepetitionPasses(w, c, target, D, n);
    SumOfEqual(Copies(D, n), D);
  }

  /** Feeds that quote a token at half an ETH. */
  function HalfPrice(now: Time, ethFeed: Address, tokenFeed: Address): Block {
    Block(now, map[ethFeed := Reading(2, now, 0), tokenFeed := Reading(1, now, 0)])
  }

  /** Under a daily cap of D, a call that sends 2 D of ETH to a token contract quoted at half an ETH passes. */
  lemma CheapTokenEscapesCap(owner: Address, c: Account.Config, D: Word, N: Word,
                             token: Address, feed: Address, ethFeed: Address)
    requires c.agentId == Raw(1) && 0 < D && 2 * D < UINT256_LIMIT && N > 0
    requires token != Null && feed != Null && feed != ethFeed
    ensures var block := HalfPrice(5, ethFeed, feed);
            var wire := Guardrail.WireOracle(owner, Some(Oracle.State(owner, ethFeed, map[token := feed])));
            var w := Guardrail.Next(Guardrail.CappedWorld(block, owner, D, N), wire);
            && Guardrail.Capped(w, c.agentId, D, N)
            && Account.Ask(w, c, ExecuteSelector, token, 2 * D) == Ok(true)
  {
    var block := HalfPrice(5, ethFeed, feed);
    var wire := Guardrail.WireOracle(owner, Some(Oracle.State(owner, ethFeed, map[token := feed])));
    var w := Guardrail.Next(Guardrail.CappedWorld(block, owner, D, N), wire);
    Guardrail.ConstrainedGrantState(block, owner, Guardrail.DailyCaps(D, N));
    var k, data := Account.KeyOf(c, ExecuteSelector, token), Account.AskedData(c, token, 2 * D);
    assert Enforcer.RateFor(w.enforcer, block, token) == Ok(Oracle.Rate(1, 2));
    assert Enforcer.EthValue(w.enforcer, block, data) == Ok(D);
    assert Enforcer.Judge(w, Guardrail.GRANTED_ID, k, data) == Ok(true);
  }
}
