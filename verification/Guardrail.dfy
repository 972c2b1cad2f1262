/** The guardrail contracts as one state machine: any caller, any order, a clock that only moves forward. */
module Guardrail {
  import opened Arithmetic
  import opened Enforcer
  import opened Evm
  import Identity
  import Oracle
  import Registry

  datatype Step =
    | NextBlock(block: Block)
    | CallIdentity(sender: Address, identityCall: Identity.Call)
    | CallRegistry(sender: Address, registryCall: Registry.Call)
    | CallOracle(sender: Address, oracleCall: Oracle.Call)
    | WireOracle(sender: Address, oracle: Option<Oracle.State>)
    | Constrain(sender: Address, permissionId: Bytes32, constraints: Constraints)
    | Record(key: Key, value: Word)
    | Act(key: Key, data: ActionData)

  /** An integrator's action: validate, then at once record the ETH-normalised value. */
  function ActOnce(w: World, k: Key, data: ActionData): Result<State> {
    var result :- Validate(w, k, data);
    if !result.valid then Revert(NotAuthorized)
    else
      var v :- if data.Short? then Ok(0) else EthValue(w.enforcer, w.block, data);
      RecordUsage(w.enforcer, w.block.now, k, v)
  }

  /** The effect of one step; Revert when the call reverts. */
  function Effect(w: World, step: Step): Result<World> {
    match step
    case NextBlock(block) =>
      if block.now < w.block.now then Revert(Panic) else Ok(w.(block := block))
    case CallIdentity(sender, call) =>
      var s :- Identity.Apply(w.identity, sender, w.block.now, call);
      Ok(w.(identity := s))
    case CallRegistry(sender, call) =>
      var s :- Registry.Apply(w.registry, w.identity, sender, w.block.now, call);
      Ok(w.(registry := s))
    case CallOracle(sender, call) =>
      if w.enforcer.oracle.None? then Revert(NoContract) else
      var s :- Oracle.Apply(w.enforcer.oracle.value, sender, call);
      Ok(w.(enforcer := w.enforcer.(oracle := Some(s))))
    case WireOracle(sender, oracle) =>
      var s :- SetPriceOracle(w.enforcer, sender, oracle);
      Ok(w.(enforcer := s))
    case Constrain(sender, id, c) =>
      var s :- SetConstraints(w.enforcer, w.registry, sender, id, c);
      Ok(w.(enforcer := s))
    case Record(k, value) =>
      var s :- RecordUsage(w.enforcer, w.block.now, k, value);
      Ok(w.(enforcer := s))
    case Act(k, data) =>
      var s :- ActOnce(w, k, data);
      Ok(w.(enforcer := s))
  }

  function Next(w: World, step: Step): World {
    var r := Effect(w, step);
    if r.Ok? then r.value else w
  }

  function Run(w: World, steps: seq<Step>): World
    decreases steps
  {
    if steps == [] then w else Run(Next(w, steps[0]), steps[1..])
  }

  /** The contracts just deployed. */
  function Genesis(block: Block, owner: Address): World {
    World(block, Identity.INITIAL, Registry.INITIAL, State(owner, None, map[], map[], []))
  }

  // ----- what every reachable state satisfies -----

  ghost predicate Inv(w: World) {
    && Identity.IndexExact(w.identity)
    && Registry.Inv(w.registry, w.block.now)
    && TrackersExact(w.enforcer, w.block.now)
  }

  lemma GenesisInv(block: Block, owner: Address)
    ensures Inv(Genesis(block, owner))
  {
    var s := Genesis(block, owner).enforcer;
    assert forall k :: KeyExact(s, k);
  }

  lemma TrackersSurvive(s: State, s': State, now: Time, later: Time)
    requires TrackersExact(s, now) && now <= later && s'.usage == s.usage && s'.log == s.log
    ensures TrackersExact(s', later)
  {
    assert forall k :: KeyExact(s, k) ==> KeyExact(s', k);
    assert forall k :: s.TrackerOf(k).lastReset <= now;
    assert forall k :: s'.TrackerOf(k) == s.TrackerOf(k);
  }

  lemma NextKeepsInv(w: World, step: Step)
    requires Inv(w)
    ensures Inv(Next(w, step)) && w.block.now <= Next(w, step).block.now
  {
    if Effect(w, step).Ok? {
      match step
      case NextBlock(block) => TrackersSurvive(w.enforcer, w.enforcer, w.block.now, block.now);
      case CallIdentity(sender, call) => Identity.ApplyKeepsIndex(w.identity, sender, w.block.now, call);
      case CallRegistry(sender, call) => Registry.ApplyKeepsInv(w.registry, w.identity, sender, w.block.now, call);
      case Record(k, value) => RecordKeepsTrackers(w.enforcer, w.block.now, k, value);
      case Act(k, data) =>
        RecordKeepsTrackers(w.enforcer, w.block.now, k,
                            if data.Short? then 0 else EthValue(w.enforcer, w.block, data).value);
      case _ => TrackersSurvive(w.enforcer, Next(w, step).enforcer, w.block.now, w.block.now);
    }
  }

  lemma {:induction false} RunKeepsInv(w: World, steps: seq<Step>)
    requires Inv(w)
    ensures Inv(Run(w, steps)) && w.block.now <= Run(w, steps).block.now
    decreases steps
  {
    if steps != [] {
      NextKeepsInv(w, steps[0]);
      RunKeepsInv(Next(w, steps[0]), steps[1..]);
    }
  }

  /** In every reachable state both indexes are exact, grantors own their policies and trackers are exact. */
  lemma ReachableInv(block: Block, owner: Address, steps: seq<Step>)
    ensures Inv(Run(Genesis(block, owner), steps))
  {
    GenesisInv(block, owner);
    RunKeepsInv(Genesis(block, owner), steps);
  }

  /** Spelled out: a nonzero owner's list is exactly its agents, once each; an agent's list is exactly the
      permissions granted to it; and each grantor owns the policy it granted from. */
  lemma ReachableIndexes(block: Block, owner: Address, steps: seq<Step>, o: Address, a: Bytes32, id: Bytes32)
    requires o != Null
    ensures var w := Run(Genesis(block, owner), steps);
            && (a in w.identity.AgentsOf(o) <==> w.identity.OwnerOf(a) == o)
            && Identity.NoDuplicates(w.identity.AgentsOf(o))
            && (id in w.registry.PermissionsOf(a) <==>
                id in w.registry.permissions && w.registry.permissions[id].agentId == a)
            && (id in w.registry.permissions ==>
                  var p := w.registry.permissions[id];
                  p.policyId in w.registry.policies && w.registry.policies[p.policyId].owner == p.grantor)
  {
    ReachableInv(block, owner, steps);
    assert Identity.ListExact(Run(Genesis(block, owner), steps).identity, o);
  }

  /** After any run, getUsage at any later time is exactly the history recorded on that time's UTC day. */
  lemma UsageIsHistoryAfterAnyRun(block: Block, owner: Address, steps: seq<Step>, later: Time, k: Key)
    requires Run(Genesis(block, owner), steps).block.now <= later
    ensures var s := Run(Genesis(block, owner), steps).enforcer;
            GetUsage(s, later, k) == Today(Volume(s.log, k, later / DAY), Count(s.log, k, later / DAY))
  {
    ReachableInv(block, owner, steps);
    var w := Run(Genesis(block, owner), steps);
    UsageIsHistory(w.enforcer, w.block.now, later, k);
  }

  /** A valid result names a permission of that very agent, granted by the owner of its active policy,
      unrevoked and inside its time window, and the agent is active. */
  lemma AcceptedIsAuthorized(block: Block, owner: Address, steps: seq<Step>, k: Key, data: ActionData)
    requires var w := Run(Genesis(block, owner), steps);
             Validate(w, k, data).Ok? && Validate(w, k, data).value.valid
    ensures var w := Run(Genesis(block, owner), steps);
            var result := Validate(w, k, data).value;
            && w.identity.IsActive(k.agentId)
            && result.permissionId in w.registry.permissions
            && var p := w.registry.permissions[result.permissionId];
            && p.agentId == k.agentId && result.validUntil == p.validUntil
            && !p.revoked && p.validFrom <= w.block.now && (p.validUntil == 0 || w.block.now <= p.validUntil)
            && w.registry.PolicyActive(p.policyId)
            && p.grantor == w.registry.policies[p.policyId].owner && p.grantor != Null
  {
    var w := Run(Genesis(block, owner), steps);
    ReachableInv(block, owner, steps);
    var result := Validate(w, k, data).value;
    ValidateIsEarliest(w, k, data, result);
    assert result.permissionId in w.registry.PermissionsOf(k.agentId);
  }

  // ----- permanence -----

  lemma NextKeepsPermission(w: World, step: Step, id: Bytes32)
    requires id in w.registry.permissions && id.PermissionId? && id.grantedAt < w.block.now
    ensures id in Next(w, step).registry.permissions
    ensures Registry.SameOrRevoked(w.registry.permissions[id], Next(w, step).registry.permissions[id])
  {
    if step.CallRegistry? && Effect(w, step).Ok? {
      Registry.ApplyKeepsPermission(w.registry, w.identity, step.sender, w.block.now, step.registryCall, id);
    }
  }

  /** Once the clock is past its grant, no run changes a permission's record except from unrevoked to revoked. */
  lemma {:induction false} RunKeepsPermission(w: World, steps: seq<Step>, id: Bytes32)
    requires Inv(w) && id in w.registry.permissions && id.PermissionId? && id.grantedAt < w.block.now
    ensures id in Run(w, steps).registry.permissions
    ensures Registry.SameOrRevoked(w.registry.permissions[id], Run(w, steps).registry.permissions[id])
    decreases steps
  {
    if steps != [] {
      NextKeepsInv(w, steps[0]);
      NextKeepsPermission(w, steps[0], id);
      RunKeepsPermission(Next(w, steps[0]), steps[1..], id);
    }
  }

  /** A permission granted in one block is, in every later block of every run and while it is not revoked and its
      policy is active, valid exactly inside the window that was asked for. */
  lemma GrantedWindowHolds(w: World, sender: Address, policyId: Bytes32, agentId: Bytes32,
                           validFrom: Word, validUntil: Word, block: Block, steps: seq<Step>, w': World)
    requires Inv(w) && w.block.now < block.now
    requires var grant := CallRegistry(sender, Registry.GrantPermission(policyId, agentId, validFrom, validUntil));
             Effect(w, grant).Ok? && w' == Run(Next(Next(w, grant), NextBlock(block)), steps)
    requires !w'.registry.PermissionOf(PermissionId(policyId, agentId, sender, w.block.now)).revoked
    requires w'.registry.PolicyActive(policyId)
    ensures Registry.IsValid(w'.registry, w'.block.now, PermissionId(policyId, agentId, sender, w.block.now)) <==>
            (validFrom == 0 || validFrom <= w'.block.now) && (validUntil == 0 || w'.block.now <= validUntil)
  {
    var grant := CallRegistry(sender, Registry.GrantPermission(policyId, agentId, validFrom, validUntil));
    var w1 := Next(w, grant);
    var w2 := Next(w1, NextBlock(block));
    NextKeepsInv(w, grant);
    NextKeepsInv(w1, NextBlock(block));
    RunKeepsPermission(w2, steps, PermissionId(policyId, agentId, sender, w.block.now));
    RunKeepsInv(w2, steps);
    Registry.GrantedWindow(w.registry, w.identity.IsActive(agentId), sender, w.block.now, policyId, agentId,
                           validFrom, validUntil, w'.registry, w'.block.now);
  }

  /** No step of the run tries to register or reactivate the agent. */
  predicate NeverWoken(steps: seq<Step>, agentId: Bytes32) {
    forall i :: 0 <= i < |steps| && steps[i].CallIdentity? && steps[i].identityCall.agentId == agentId ==>
      !steps[i].identityCall.Register? && !steps[i].identityCall.Reactivate?
  }

  lemma {:induction false} InactiveStaysInactive(w: World, steps: seq<Step>, agentId: Bytes32)
    requires !w.identity.IsActive(agentId) && NeverWoken(steps, agentId)
    ensures !Run(w, steps).identity.IsActive(agentId)
    decreases steps
  {
    if steps != [] {
      InactiveStaysInactive(Next(w, steps[0]), steps[1..], agentId);
    }
  }

  /** Once its owner has deactivated an agent, nothing it asks for is accepted in any run until someone
      reactivates it or registers it anew. */
  lemma DeactivationStops(w: World, sender: Address, k: Key, steps: seq<Step>, data: ActionData)
    requires Effect(w, CallIdentity(sender, Identity.Deactivate(k.agentId))).Ok? && NeverWoken(steps, k.agentId)
    ensures Validate(Run(Next(w, CallIdentity(sender, Identity.Deactivate(k.agentId))), steps), k, data) == Ok(REFUSED)
  {
    InactiveStaysInactive(Next(w, CallIdentity(sender, Identity.Deactivate(k.agentId))), steps, k.agentId);
  }

  /** Revoked, or past the end of its window. */
  predicate Dead(w: World, id: Bytes32) {
    id in w.registry.permissions &&
    (w.registry.permissions[id].revoked || Registry.Expired(w.registry.permissions[id], w.block.now))
  }

  predicate ValidAfter(w: World, steps: seq<Step>, id: Bytes32) {
    Registry.IsValid(Run(w, steps).registry, Run(w, steps).block.now, id)
  }

  lemma DeadStaysDead(w: World, steps: seq<Step>, id: Bytes32)
    requires Inv(w) && Dead(w, id) && id.grantedAt < w.block.now
    ensures !ValidAfter(w, steps, id)
  {
    RunKeepsPermission(w, steps, id);
    RunKeepsInv(w, steps);
  }

  /** Three calls that bring a dead permission back inside its own block. */
  function Revival(w: World, id: Bytes32): seq<Step>
    requires id.PermissionId?
  {
    var agent := id.agentId;
    var wake :=
      if w.identity.IsActive(agent) then NextBlock(w.block)
      else if w.identity.OwnerOf(agent) == Null then CallIdentity(Account(1), Identity.Register(agent, ""))
      else CallIdentity(w.identity.OwnerOf(agent), Identity.Reactivate(agent));
    [wake,
     CallRegistry(id.grantor, Registry.ReactivatePolicy(id.policyId)),
     CallRegistry(id.grantor, Registry.GrantPermission(id.policyId, agent, 0, 0))]
  }

  lemma RevivalRevives(w: World, id: Bytes32)
    requires Inv(w) && id in w.registry.permissions && id.grantedAt == w.block.now
    ensures ValidAfter(w, Revival(w, id), id)
  {
    var steps := Revival(w, id);
    var w1 := Next(w, steps[0]);
    assert w1.identity.IsActive(id.agentId) && w1.registry == w.registry && w1.block == w.block;
    var w2 := Next(w1, steps[1]);
    assert w2.registry.PolicyActive(id.policyId) && w2.registry.PolicyOwner(id.policyId) == id.grantor;
    var w3 := Next(w2, steps[2]);
    assert w3.registry.PermissionOf(id)
        == Registry.Permission(id.policyId, id.agentId, id.grantor, w.block.now, 0, false);
    assert steps[1..][1..] == [steps[2]] && steps[1..][0] == steps[1];
    assert Run(w, steps) == Run(w1, steps[1..]) == Run(w2, [steps[2]]) == Run(w3, []) == w3;
  }

  /** A run within one block: register, create, grant, revoke, grant again. */
  const ONE_BLOCK_REGRANT: seq<Step> :=
    var alice, agent := Account(1), Raw(1);
    var policy := PolicyId(alice, Raw(2), 5);
    [CallIdentity(alice, Identity.Register(agent, "")),
     CallRegistry(alice, Registry.CreatePolicy(Raw(2))),
     CallRegistry(alice, Registry.GrantPermission(policy, agent, 0, 0)),
     CallRegistry(alice, Registry.RevokePermission(PermissionId(policy, agent, alice, 5))),
     CallRegistry(alice, Registry.GrantPermission(policy, agent, 0, 0))]

  lemma RunFour(w: World, steps: seq<Step>, w1: World, w2: World, w3: World)
    requires |steps| == 4
    requires w1 == Next(w, steps[0]) && w2 == Next(w1, steps[1]) && w3 == Next(w2, steps[2])
    ensures Run(w, steps) == Next(w3, steps[3])
  {
    assert Run(w, steps) == Run(w1, steps[1..]) == Run(w2, steps[1..][1..]);
    assert steps[1..][1..] == [steps[2], steps[3]];
    assert Run(w2, [steps[2], steps[3]]) == Run(w3, [steps[3]]) == Run(Next(w3, steps[3]), []);
  }

  lemma RunFive(w: World, steps: seq<Step>, w1: World, w2: World, w3: World, w4: World)
    requires |steps| == 5 && w1 == Next(w, steps[0])
    requires w2 == Next(w1, steps[1]) && w3 == Next(w2, steps[2]) && w4 == Next(w3, steps[3])
    ensures Run(w, steps) == Next(w4, steps[4])
  {
    RunFour(w1, steps[1..], w2, w3, w4);
  }

  /** After four of its steps the permission is revoked; after the fifth it is valid again. */
  lemma RegrantUndoesRevocation(block: Block, owner: Address)
    requires block.now == 5
    ensures var w, id := Genesis(block, owner), PermissionId(PolicyId(Account(1), Raw(2), 5), Raw(1), Account(1), 5);
            Dead(Run(w, ONE_BLOCK_REGRANT[..4]), id) && ValidAfter(w, ONE_BLOCK_REGRANT, id)
  {
    var w, steps := Genesis(block, owner), ONE_BLOCK_REGRANT;
    var w1 := Next(w, steps[0]);
    var w2 := Next(w1, steps[1]);
    var w3 := Next(w2, steps[2]);
    var w4 := Next(w3, steps[3]);
    var w5 := Next(w4, steps[4]);
    RunFive(w, steps, w1, w2, w3, w4);
    RunFour(w, steps[..4], w1, w2, w3);
  }

  /** In a reachable state, a revoked or expired permission is gone for good, whatever anyone does,
      exactly when its grant lies in an earlier block: inside the granting block an identical grant
      overwrites the record. */
  lemma DeadForeverExactly(block: Block, owner: Address, past: seq<Step>, id: Bytes32)
    requires Dead(Run(Genesis(block, owner), past), id)
    ensures id.PermissionId?
    ensures var w := Run(Genesis(block, owner), past);
            (forall future :: !ValidAfter(w, future, id)) <==> id.grantedAt < w.block.now
  {
    var w := Run(Genesis(block, owner), past);
    ReachableInv(block, owner, past);
    if id.grantedAt < w.block.now {
      forall future ensures !ValidAfter(w, future, id) {
        DeadStaysDead(w, future, id);
      }
    } else {
      RevivalRevives(w, id);
    }
  }

  // ----- caps over runs -----

  /** Every permission of the agent that can be used now carries a volume cap up to D and a count cap up to N. */
  ghost predicate Capped(w: World, agentId: Bytes32, D: nat, N: nat) {
    forall id :: id in w.registry.PermissionsOf(agentId) && Registry.IsValid(w.registry, w.block.now, id) ==>
      var c := w.enforcer.ConstraintsOf(id);
      0 < c.maxDailyVolume <= D && 0 < c.maxTxCount <= N
  }

  /** The step records usage under k only by acting, with full action data and under capped permissions. */
  ghost predicate DisciplinedStep(w: World, step: Step, k: Key, D: nat, N: nat) {
    && (step.Record? ==> step.key != k)
    && (step.Act? && step.key == k ==> !step.data.Short? && Capped(w, k.agentId, D, N))
  }

  ghost predicate Disciplined(w: World, steps: seq<Step>, k: Key, D: nat, N: nat)
    decreases steps
  {
    steps != [] ==> DisciplinedStep(w, steps[0], k, D, N) && Disciplined(Next(w, steps[0]), steps[1..], k, D, N)
  }

  ghost predicate WithinCaps(log: seq<Usage>, k: Key, D: nat, N: nat) {
    forall day :: Volume(log, k, day) <= D && Count(log, k, day) <= N
  }

  /** What an accepted, disciplined action adds to the log, and why it fits. */
  lemma ActAdds(w: World, k: Key, data: ActionData, D: nat, N: nat)
    requires Inv(w) && !data.Short? && Capped(w, k.agentId, D, N) && ActOnce(w, k, data).Ok?
    ensures EthValue(w.enforcer, w.block, data).Ok?
    ensures var v := EthValue(w.enforcer, w.block, data).value;
            && ActOnce(w, k, data).value.log == w.enforcer.log + [Usage(w.block.now, k, v)]
            && Volume(w.enforcer.log, k, w.block.now / DAY) + v <= D
            && Count(w.enforcer.log, k, w.block.now / DAY) < N
  {
    var result := Validate(w, k, data).value;
    ValidateIsEarliest(w, k, data, result);
    assert result.permissionId in w.registry.PermissionsOf(k.agentId);
    assert Judge(w, result.permissionId, k, data) == Ok(true);
    UsageIsHistory(w.enforcer, w.block.now, w.block.now, k);
  }

  /** A step leaves the log alone or appends one event, in its own block and under its own key. */
  lemma NextLog(w: World, step: Step)
    ensures var log, log' := w.enforcer.log, Next(w, step).enforcer.log;
            || log' == log
            || (&& (step.Record? || step.Act?) && Effect(w, step).Ok?
                && |log'| == |log| + 1 && log' == log + [log'[|log|]]
                && log'[|log|].key == step.key && log'[|log|].at == w.block.now)
    ensures (step.Record? || step.Act?) && Effect(w, step).Ok? ==> Next(w, step).enforcer.log != w.enforcer.log
  {
  }

  lemma NextKeepsCaps(w: World, step: Step, k: Key, D: nat, N: nat)
    requires Inv(w) && DisciplinedStep(w, step, k, D, N) && WithinCaps(w.enforcer.log, k, D, N)
    ensures WithinCaps(Next(w, step).enforcer.log, k, D, N)
  {
    var log, log' := w.enforcer.log, Next(w, step).enforcer.log;
    NextLog(w, step);
    if log' != log {
      if step.key == k {
        ActAdds(w, k, step.data, D, N);
      }
      forall day
        ensures Volume(log', k, day) <= D && Count(log', k, day) <= N
      {
        LogAppend(log, log'[|log|], k, day);
        assert Volume(log, k, day) <= D && Count(log, k, day) <= N;
      }
    }
  }

  lemma {:induction false} RunKeepsCaps(w: World, steps: seq<Step>, k: Key, D: nat, N: nat)
    requires Inv(w) && Disciplined(w, steps, k, D, N) && WithinCaps(w.enforcer.log, k, D, N)
    ensures WithinCaps(Run(w, steps).enforcer.log, k, D, N)
    decreases steps
  {
    if steps != [] {
      NextKeepsInv(w, steps[0]);
      NextKeepsCaps(w, steps[0], k, D, N);
      RunKeepsCaps(Next(w, steps[0]), steps[1..], k, D, N);
    }
  }

  /** Over every disciplined run the volume recorded on any UTC day stays within D and the count within N. */
  lemma CapsHold(block: Block, owner: Address, steps: seq<Step>, k: Key, D: nat, N: nat, day: nat)
    requires Disciplined(Genesis(block, owner), steps, k, D, N)
    ensures var log := Run(Genesis(block, owner), steps).enforcer.log;
            Volume(log, k, day) <= D && Count(log, k, day) <= N
  {
    GenesisInv(block, owner);
    RunKeepsCaps(Genesis(block, owner), steps, k, D, N);
  }

  // ----- why the discipline asks for full action data -----

  /** Each cap binds an allowed action, whatever the usage and the quote, exactly when its data is not short. */
  lemma CapsBindExactly(c: Constraints, actionHash: Bytes32, data: ActionData)
    requires Allows(c.allowedActions, actionHash, Zero)
    ensures c.maxTxCount > 0 ==>
              ((forall today, eth: Result<Word> :: Check(c, today, eth, actionHash, data) == Ok(true) ==>
                  today.count < c.maxTxCount)
               <==> !data.Short?)
    ensures c.maxDailyVolume > 0 ==>
              ((forall today, eth: Result<Word> :: Check(c, today, eth, actionHash, data) == Ok(true) ==>
                  eth.Ok? && today.volume + eth.value <= c.maxDailyVolume)
               <==> !data.Short?)
    ensures c.maxValuePerTx > 0 ==>
              ((forall today, eth: Result<Word> :: Check(c, today, eth, actionHash, data) == Ok(true) ==>
                  eth.Ok? && eth.value <= c.maxValuePerTx)
               <==> !data.Short?)
  {
    if data.Short? {
      assert Check(c, Today(0, c.maxTxCount), Revert(Panic), actionHash, data) == Ok(true);
    }
  }

  /** Two worlds that differ at most in recorded usage. */
  predicate SameButUsage(w: World, w': World) {
    w' == w.(enforcer := w.enforcer.(usage := w'.enforcer.usage, log := w'.enforcer.log))
  }

  lemma {:induction false} ShortSearchIgnoresUsage(w: World, w': World, ids: seq<Bytes32>, k: Key)
    requires SameButUsage(w, w')
    ensures Search(w', ids, k, Short) == Search(w, ids, k, Short)
  {
    if ids != [] {
      assert Judge(w', ids[0], k, Short) == Judge(w, ids[0], k, Short);
      ShortSearchIgnoresUsage(w, w', ids[1..], k);
    }
  }

  lemma ShortActRecords(w: World, k: Key)
    requires Inv(w) && Validate(w, k, Short).Ok? && Validate(w, k, Short).value.valid
    requires Count(w.enforcer.log, k, w.block.now / DAY) + 1 < UINT256_LIMIT
    ensures RecordUsage(w.enforcer, w.block.now, k, 0).Ok?
    ensures Next(w, Act(k, Short)) == w.(enforcer := RecordUsage(w.enforcer, w.block.now, k, 0).value)
  {
    UsageIsHistory(w.enforcer, w.block.now, w.block.now, k);
    RecordsExactly(w.enforcer, w.block.now, k, 0, k, w.block.now);
  }

  /** One accepted short action adds one to the count and is accepted again. */
  lemma ShortActRepeats(w: World, k: Key)
    requires Inv(w) && Validate(w, k, Short).Ok? && Validate(w, k, Short).value.valid
    requires Count(w.enforcer.log, k, w.block.now / DAY) + 1 < UINT256_LIMIT
    ensures var w' := Next(w, Act(k, Short));
            && Inv(w') && w'.block == w.block && Validate(w', k, Short) == Validate(w, k, Short)
            && Count(w'.enforcer.log, k, w.block.now / DAY) == Count(w.enforcer.log, k, w.block.now / DAY) + 1
  {
    var w' := Next(w, Act(k, Short));
    NextKeepsInv(w, Act(k, Short));
    ShortActRecords(w, k);
    LogAppend(w.enforcer.log, Usage(w.block.now, k, 0), k, w.block.now / DAY);
    ShortSearchIgnoresUsage(w, w', w.registry.PermissionsOf(k.agentId), k);
  }

  /** In a state that accepts a short action once, any number of them in a row is accepted and counted, whatever
      the count caps are. */
  lemma {:induction false} ShortActsAreUnlimited(w: World, k: Key, n: nat)
    requires Inv(w) && Validate(w, k, Short).Ok? && Validate(w, k, Short).value.valid
    requires Count(w.enforcer.log, k, w.block.now / DAY) + n < UINT256_LIMIT
    ensures Count(Run(w, Copies(Act(k, Short), n)).enforcer.log, k, w.block.now / DAY)
         == Count(w.enforcer.log, k, w.block.now / DAY) + n
    decreases n
  {
    if n > 0 {
      ShortActRepeats(w, k);
      ShortActsAreUnlimited(Next(w, Act(k, Short)), k, n - 1);
      assert Copies(Act(k, Short), n)[1..] == Copies(Act(k, Short), n - 1);
    }
  }

  /** Register an agent, create a policy, grant it, and constrain the grant. */
  function ConstrainedGrant(constraints: Constraints): seq<Step> {
    var alice, agent := Account(1), Raw(1);
    var policy := PolicyId(alice, Raw(2), 5);
    [CallIdentity(alice, Identity.Register(agent, "")),
     CallRegistry(alice, Registry.CreatePolicy(Raw(2))),
     CallRegistry(alice, Registry.GrantPermission(policy, agent, 0, 0)),
     Constrain(alice, PermissionId(policy, agent, alice, 5), constraints)]
  }

  const GRANTED_ID := PermissionId(PolicyId(Account(1), Raw(2), 5), Raw(1), Account(1), 5)

  /** The state those four calls leave: one usable, constrained permission, no oracle and nothing recorded. */
  lemma ConstrainedGrantState(block: Block, owner: Address, constraints: Constraints)
    requires block.now == 5
    ensures var w := Run(Genesis(block, owner), ConstrainedGrant(constraints));
            && w.block == block && w.identity.IsActive(Raw(1))
            && w.enforcer.log == [] && w.enforcer.usage == map[]
            && w.enforcer.oracle == None && w.enforcer.owner == owner
            && w.registry.PermissionsOf(Raw(1)) == [GRANTED_ID] && Registry.IsValid(w.registry, 5, GRANTED_ID)
            && w.registry.PermissionOf(GRANTED_ID).validUntil == 0
            && w.enforcer.ConstraintsOf(GRANTED_ID) == constraints
  {
    var w, steps := Genesis(block, owner), ConstrainedGrant(constraints);
    var w1 := Next(w, steps[0]);
    var w2 := Next(w1, steps[1]);
    var w3 := Next(w2, steps[2]);
    var w4 := Next(w3, steps[3]);
    RunFour(w, steps, w1, w2, w3);
  }

  function DailyCaps(D: Word, N: Word): Constraints {
    NO_CONSTRAINTS.(maxDailyVolume := D, maxTxCount := N)
  }

  function CappedWorld(block: Block, owner: Address, D: Word, N: Word): World {
    Run(Genesis(block, owner), ConstrainedGrant(DailyCaps(D, N)))
  }

  /** Under a cap of N transactions a day, N + 1 short actions are accepted and counted on one day. */
  lemma ShortActsExceedCap(block: Block, owner: Address, D: Word, N: Word)
    requires block.now == 5 && 0 < N < UINT256_LIMIT - 1
    ensures var k, w := Key(Raw(1), Raw(3)), CappedWorld(block, owner, D, N);
            && (forall id :: id in w.registry.PermissionsOf(k.agentId) ==>
                  w.enforcer.ConstraintsOf(id) == DailyCaps(D, N))
            && Count(Run(w, Copies(Act(k, Short), N + 1)).enforcer.log, k, 0) == N + 1
  {
    var k, w := Key(Raw(1), Raw(3)), CappedWorld(block, owner, D, N);
    ConstrainedGrantState(block, owner, DailyCaps(D, N));
    ReachableInv(block, owner, ConstrainedGrant(DailyCaps(D, N)));
    assert Judge(w, GRANTED_ID, k, Short) == Ok(true);
    ShortActsAreUnlimited(w, k, N + 1);
  }

  // ----- sliding windows -----

  /** The sum of the values recorded under k in the 86400 seconds from a time on. */
  function WindowVolume(log: seq<Usage>, k: Key, from: nat): nat {
    if log == [] then 0
    else
      var e := log[|log| - 1];
      WindowVolume(log[..|log| - 1], k, from) + if e.key == k && from <= e.at < from + DAY then e.value else 0
  }

  lemma {:induction false} WindowWithinTwoDays(log: seq<Usage>, k: Key, from: nat)
    ensures WindowVolume(log, k, from) <= Volume(log, k, from / DAY) + Volume(log, k, from / DAY + 1)
  {
    if log != [] {
      WindowWithinTwoDays(log[..|log| - 1], k, from);
    }
  }

  /** Over every disciplined run, any 86400 seconds hold at most twice the daily cap. */
  lemma WindowCapHolds(block: Block, owner: Address, steps: seq<Step>, k: Key, D: nat, N: nat, from: nat)
    requires Disciplined(Genesis(block, owner), steps, k, D, N)
    ensures WindowVolume(Run(Genesis(block, owner), steps).enforcer.log, k, from) <= 2 * D
  {
    var log := Run(Genesis(block, owner), steps).enforcer.log;
    CapsHold(block, owner, steps, k, D, N, from / DAY);
    CapsHold(block, owner, steps, k, D, N, from / DAY + 1);
    WindowWithinTwoDays(log, k, from);
  }

  lemma {:induction false} RunConcat(w: World, a: seq<Step>, b: seq<Step>)
    ensures Run(w, a + b) == Run(Run(w, a), b)
    decreases a
  {
    if a == [] {
      assert a + b == b;
    } else {
      assert (a + b)[1..] == a[1..] + b;
      RunConcat(Next(w, a[0]), a[1..], b);
    }
  }

  /** Steps that record nothing leave the discipline to the rest. */
  lemma {:induction false} QuietThenDisciplined(w: World, a: seq<Step>, b: seq<Step>, k: Key, D: nat, N: nat)
    requires forall i :: 0 <= i < |a| ==> !a[i].Record? && !a[i].Act?
    requires Disciplined(Run(w, a), b, k, D, N)
    ensures Disciplined(w, a + b, k, D, N)
    decreases a
  {
    if a == [] {
      assert a + b == b;
    } else {
      assert (a + b)[1..] == a[1..] + b;
      QuietThenDisciplined(Next(w, a[0]), a[1..], b, k, D, N);
    }
  }

  /** The last second of a day and the first of the next, with the whole daily cap used in each. */
  function AcrossMidnight(k: Key, D: Word): seq<Step> {
    var data := Legacy(D, Null);
    [NextBlock(Block(DAY - 1, map[])), Act(k, data), NextBlock(Block(DAY, map[])), Act(k, data)]
  }

  /** An action of the whole cap on a day without usage is accepted, recorded and nothing else. */
  lemma WholeCapActs(w: World, k: Key, D: Word, N: Word)
    requires k.agentId == Raw(1) && w.identity.IsActive(Raw(1)) && D > 0 && N > 0
    requires w.registry.PermissionsOf(Raw(1)) == [GRANTED_ID] && Registry.IsValid(w.registry, w.block.now, GRANTED_ID)
    requires w.enforcer.ConstraintsOf(GRANTED_ID) == DailyCaps(D, N)
    requires GetUsage(w.enforcer, w.block.now, k) == Today(0, 0)
    ensures DisciplinedStep(w, Act(k, Legacy(D, Null)), k, D, N)
    ensures RecordUsage(w.enforcer, w.block.now, k, D).Ok?
    ensures Next(w, Act(k, Legacy(D, Null))) == w.(enforcer := RecordUsage(w.enforcer, w.block.now, k, D).value)
  {
    assert Judge(w, GRANTED_ID, k, Legacy(D, Null)) == Ok(true);
  }

  lemma AcrossMidnightRun(w: World, k: Key, D: Word, N: Word)
    requires k.agentId == Raw(1) && w.identity.IsActive(Raw(1)) && D > 0 && N > 0 && w.block.now == 5
    requires w.registry.PermissionsOf(Raw(1)) == [GRANTED_ID] && Registry.IsValid(w.registry, 5, GRANTED_ID)
    requires w.enforcer.ConstraintsOf(GRANTED_ID) == DailyCaps(D, N)
    requires w.enforcer.log == [] && w.enforcer.usage == map[]
    requires w.registry.PermissionOf(GRANTED_ID).validUntil == 0
    ensures Disciplined(w, AcrossMidnight(k, D), k, D, N)
    ensures Run(w, AcrossMidnight(k, D)).enforcer.log == [Usage(DAY - 1, k, D), Usage(DAY, k, D)]
  {
    var steps := AcrossMidnight(k, D);
    var w1 := Next(w, steps[0]);
    WholeCapActs(w1, k, D, N);
    var w2 := Next(w1, steps[1]);
    var w3 := Next(w2, steps[2]);
    WholeCapActs(w3, k, D, N);
    var w4 := Next(w3, steps[3]);
    RunFour(w, steps, w1, w2, w3);
    assert Disciplined(w3, steps[3..], k, D, N);
    assert Disciplined(w2, steps[2..], k, D, N);
    assert Disciplined(w1, steps[1..], k, D, N);
  }

  /** The bound is met: a disciplined run that records twice the cap within two seconds. */
  lemma WindowCapIsTight(block: Block, owner: Address, D: Word, N: Word)
    requires block.now == 5 && D > 0 && N > 0
    ensures var k := Key(Raw(1), Raw(3));
            var steps := ConstrainedGrant(DailyCaps(D, N)) + AcrossMidnight(k, D);
            && Disciplined(Genesis(block, owner), steps, k, D, N)
            && WindowVolume(Run(Genesis(block, owner), steps).enforcer.log, k, DAY - 1) == 2 * D
  {
    var k, grant := Key(Raw(1), Raw(3)), ConstrainedGrant(DailyCaps(D, N));
    ConstrainedGrantState(block, owner, DailyCaps(D, N));
    AcrossMidnightRun(Run(Genesis(block, owner), grant), k, D, N);
    RunConcat(Genesis(block, owner), grant, AcrossMidnight(k, D));
    QuietThenDisciplined(Genesis(block, owner), grant, AcrossMidnight(k, D), k, D, N);
    var first, second := Usage(DAY - 1, k, D), Usage(DAY, k, D);
    assert [first, second][..1] == [first];
    assert WindowVolume([first], k, DAY - 1) == D;
  }

  // ----- rounding over a day -----

  predicate ActsOn(w: World, step: Step, k: Key, day: nat) {
    step.Act? && step.key == k && w.block.now / DAY == day && Effect(w, step).Ok?
  }

  /** The token amounts of the actions accepted under k on a UTC day. */
  function Amounts(w: World, steps: seq<Step>, k: Key, day: nat): seq<nat>
    decreases steps
  {
    if steps == [] then []
    else
      var rest := Amounts(Next(w, steps[0]), steps[1..], k, day);
      if ActsOn(w, steps[0], k, day) && !steps[0].data.Short? then [steps[0].data.value] + rest else rest
  }

  /** On that day every accepted action under k is in one token, quoted at one rate. */
  ghost predicate OneRate(w: World, steps: seq<Step>, k: Key, day: nat, token: Address, rate: Oracle.Rate)
    decreases steps
  {
    steps != [] ==>
      && (ActsOn(w, steps[0], k, day) ==>
            !steps[0].data.Short? && steps[0].data.token == token && RateFor(w.enforcer, w.block, token) == Ok(rate))
      && OneRate(Next(w, steps[0]), steps[1..], k, day, token, rate)
  }

  /** What one disciplined step adds to a day's volume and count. */
  lemma StepRecords(w: World, step: Step, k: Key, D: nat, N: nat, day: nat, token: Address, rate: Oracle.Rate)
    requires Inv(w) && DisciplinedStep(w, step, k, D, N) && OneRate(w, [step], k, day, token, rate) && rate.den > 0
    ensures var log, log' := w.enforcer.log, Next(w, step).enforcer.log;
            var acts := ActsOn(w, step, k, day);
            && (acts ==> !step.data.Short?)
            && Volume(log', k, day) == Volume(log, k, day) + (if acts then step.data.value * rate.num / rate.den else 0)
            && Count(log', k, day) == Count(log, k, day) + (if acts then 1 else 0)
  {
    var log, log' := w.enforcer.log, Next(w, step).enforcer.log;
    NextLog(w, step);
    if log' != log {
      if step.key == k {
        ActAdds(w, k, step.data, D, N);
      }
      LogAppend(log, log'[|log|], k, day);
    }
  }

  lemma {:induction false} RecordedIsScaled(w: World, steps: seq<Step>, k: Key, D: nat, N: nat,
                                            day: nat, token: Address, rate: Oracle.Rate)
    requires Inv(w) && Disciplined(w, steps, k, D, N) && OneRate(w, steps, k, day, token, rate) && rate.den > 0
    ensures var log, amounts := Run(w, steps).enforcer.log, Amounts(w, steps, k, day);
            && Volume(log, k, day) == Volume(w.enforcer.log, k, day) + SumScaled(amounts, rate.num, rate.den)
            && Count(log, k, day) == Count(w.enforcer.log, k, day) + |amounts|
    decreases steps
  {
    if steps != [] {
      var w' := Next(w, steps[0]);
      NextKeepsInv(w, steps[0]);
      StepRecords(w, steps[0], k, D, N, day, token, rate);
      RecordedIsScaled(w', steps[1..], k, D, N, day, token, rate);
      if ActsOn(w, steps[0], k, day) {
        var rest := Amounts(w', steps[1..], k, day);
        assert ([steps[0].data.value] + rest)[1..] == rest;
      }
    }
  }

  lemma ConvertedWhole(rate: Oracle.Rate, amounts: seq<nat>)
    requires rate.den > 0 && Sum(amounts) < UINT256_LIMIT && Oracle.Convert(rate, Sum(amounts)).Ok?
    ensures SumScaled(amounts, rate.num, rate.den) <= Oracle.Convert(rate, Sum(amounts)).value
    ensures Oracle.Convert(rate, Sum(amounts)).value
         <= SumScaled(amounts, rate.num, rate.den) + (if amounts == [] then 0 else |amounts| - 1)
  {
    RoundingLoss(amounts, rate.num, rate.den);
    if amounts == [] {
      QuotientIs(0, rate.den, 0, 0);
    }
  }

  /** Converting a day's total token amount in one call gives at most D + N - 1 wei: flooring action by
      action hides at most one wei per action beyond the first. */
  lemma DayTotalBounded(block: Block, owner: Address, steps: seq<Step>, k: Key, D: nat, N: nat,
                        day: nat, token: Address, rate: Oracle.Rate)
    requires Disciplined(Genesis(block, owner), steps, k, D, N) && N > 0 && rate.den > 0
    requires OneRate(Genesis(block, owner), steps, k, day, token, rate)
    requires Sum(Amounts(Genesis(block, owner), steps, k, day)) < UINT256_LIMIT
    ensures var w := Genesis(block, owner);
            var recorded := Volume(Run(w, steps).enforcer.log, k, day);
            var whole := Oracle.Convert(rate, Sum(Amounts(w, steps, k, day)));
            whole.Ok? ==> recorded <= whole.value <= D + N - 1
  {
    var w := Genesis(block, owner);
    GenesisInv(block, owner);
    CapsHold(block, owner, steps, k, D, N, day);
    RecordedIsScaled(w, steps, k, D, N, day, token, rate);
    if Oracle.Convert(rate, Sum(Amounts(w, steps, k, day))).Ok? {
      ConvertedWhole(rate, Amounts(w, steps, k, day));
    }
  }
}
