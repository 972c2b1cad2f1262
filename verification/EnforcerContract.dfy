/** The PermissionEnforcer contract over the two registries and an optional price oracle. */
module EnforcerContract {
  import opened Enforcer
  import opened Evm
  import Identity
  import Oracle
  import Registry

  /** One allow-list loop: stops at the first entry that is x or the wildcard. */
  method Listed<T(==)>(list: seq<T>, x: T, any: T) returns (allowed: bool)
    ensures allowed <==> x in list || any in list
  {
    allowed := false;
    for i := 0 to |list|
      invariant !allowed && x !in list[..i] && any !in list[..i]
    {
      if list[i] == x || list[i] == any {
        allowed := true;
        break;
      }
    }
  }

  class PermissionEnforcer {
    const policyRegistry: Registry.PolicyRegistry
    const identityRegistry: Identity.IdentityRegistry
    var priceOracle: Oracle.PriceOracle?
    var owner: Address
    var agentUsage: map<Key, Tracker>
    var permissionConstraints: map<Bytes32, Constraints>
    var usageRecorded: seq<Usage>

    ghost function View(): State
      reads this, priceOracle
    {
      State(owner, if priceOracle == null then None else Some(priceOracle.View()),
            permissionConstraints, agentUsage, usageRecorded)
    }

    /** Everything validateAction can see in this block. */
    ghost function Seen(block: Block): World
      reads this, priceOracle, policyRegistry, identityRegistry
    {
      World(block, identityRegistry.View(), policyRegistry.View(), View())
    }

    constructor (sender: Address, policyRegistry: Registry.PolicyRegistry, identityRegistry: Identity.IdentityRegistry)
      ensures View() == State(sender, None, map[], map[], [])
      ensures this.policyRegistry == policyRegistry && this.identityRegistry == identityRegistry
    {
      this.policyRegistry, this.identityRegistry := policyRegistry, identityRegistry;
      priceOracle, owner := null, sender;
      agentUsage, permissionConstraints, usageRecorded := map[], map[], [];
    }

    method SetPriceOracle(sender: Address, oracle: Oracle.PriceOracle?) returns (r: Result<()>)
      modifies this
      ensures Commits(old(View()), r, View(),
                      Enforcer.SetPriceOracle(old(View()), sender,
                                              if oracle == null then None else Some(oracle.View())))
    {
      if sender != owner { return Revert(NotOwner); }
      priceOracle := oracle;
      return Ok(());
    }

    method SetConstraints(sender: Address, id: Bytes32, c: Constraints) returns (r: Result<()>)
      modifies this
      ensures Commits(old(View()), r, View(),
                      Enforcer.SetConstraints(old(View()), policyRegistry.View(), sender, id, c))
    {
      var grantor := if id in policyRegistry.permissions then policyRegistry.permissions[id].grantor else Null;
      if grantor != sender { return Revert(NotPermissionGrantor); }
      permissionConstraints := permissionConstraints[id := c];
      return Ok(());
    }

    method RecordUsage(now: Time, k: Key, value: Word) returns (r: Result<()>)
      modifies this
      ensures Commits(old(View()), r, View(), Enforcer.RecordUsage(old(View()), now, k, value))
    {
      var tracker := if k in agentUsage then agentUsage[k] else NO_USAGE;
      if now >= tracker.lastReset + DAY {
        tracker := Tracker(0, now - now % DAY, 0);
      }
      if tracker.dailyVolume + value >= UINT256_LIMIT { return Revert(Panic); }
      tracker := tracker.(dailyVolume := tracker.dailyVolume + value);
      if tracker.txCount + 1 >= UINT256_LIMIT { return Revert(Panic); }
      tracker := tracker.(txCount := tracker.txCount + 1);
      agentUsage := agentUsage[k := tracker];
      usageRecorded := usageRecorded + [Usage(now, k, value)];
      return Ok(());
    }

    method GetUsage(now: Time, k: Key) returns (dailyVolume: nat, txCount: nat)
      ensures Today(dailyVolume, txCount) == Enforcer.GetUsage(View(), now, k)
    {
      var tracker := if k in agentUsage then agentUsage[k] else NO_USAGE;
      if now >= tracker.lastReset + DAY { return 0, 0; }
      return tracker.dailyVolume, tracker.txCount;
    }

    method GetRemainingQuota(now: Time, id: Bytes32, k: Key) returns (remainingVolume: nat, remainingTxCount: nat)
      ensures Today(remainingVolume, remainingTxCount) == Enforcer.GetRemainingQuota(View(), now, id, k)
    {
      var c := if id in permissionConstraints then permissionConstraints[id] else NO_CONSTRAINTS;
      var volume, count := GetUsage(now, k);
      remainingVolume := if c.maxDailyVolume > volume then c.maxDailyVolume - volume else 0;
      remainingTxCount := if c.maxTxCount > count then c.maxTxCount - count else 0;
    }

    method NormalizedValue(block: Block, data: ActionData) returns (r: Result<Word>)
      requires !data.Short?
      ensures r == EthValue(View(), block, data)
    {
      if priceOracle == null || data.token == Null {
        return Ok(data.value);
      }
      r := priceOracle.GetEthValue(block, data.token, data.value);
    }

    /** The token list and, in the extended format, the protocol and chain lists. */
    method MeetsLists(c: Constraints, data: ActionData) returns (met: bool)
      requires !data.Short?
      ensures met == ListsAllow(c, data)
    {
      if |c.allowedTokens| > 0 {
        var tokenAllowed := Listed(c.allowedTokens, data.token, Null);
        if !tokenAllowed { return false; }
      }
      if data.Extended? {
        if |c.allowedProtocols| > 0 {
          var protocolAllowed := Listed(c.allowedProtocols, data.protocol, Null);
          if !protocolAllowed { return false; }
        }
        if |c.allowedChains| > 0 {
          var chainAllowed := Listed(c.allowedChains, data.chainId, 0);
          if !chainAllowed { return false; }
        }
      }
      return true;
    }

    method MeetsDailyCaps(now: Time, c: Constraints, k: Key, ethValue: Word) returns (r: Result<bool>)
      ensures var today := Enforcer.GetUsage(View(), now, k);
              r == if c.maxDailyVolume > 0 && today.volume + ethValue >= UINT256_LIMIT then Revert(Panic)
                   else Ok(Within(c.maxDailyVolume, today.volume + ethValue)
                           && (c.maxTxCount == 0 || today.count < c.maxTxCount))
    {
      var volume, count := GetUsage(now, k);
      if c.maxDailyVolume > 0 {
        if volume + ethValue >= UINT256_LIMIT { return Revert(Panic); }
        if volume + ethValue > c.maxDailyVolume { return Ok(false); }
      }
      if c.maxTxCount > 0 && count >= c.maxTxCount { return Ok(false); }
      return Ok(true);
    }

    method CheckConstraints(block: Block, id: Bytes32, k: Key, data: ActionData) returns (r: Result<bool>)
      ensures r == Check(View().ConstraintsOf(id), Enforcer.GetUsage(View(), block.now, k),
                         if data.Short? then Ok(0) else EthValue(View(), block, data), k.actionHash, data)
    {
      var c := if id in permissionConstraints then permissionConstraints[id] else NO_CONSTRAINTS;
      if c.Empty() { return Ok(true); }

      if |c.allowedActions| > 0 {
        var actionAllowed := Listed(c.allowedActions, k.actionHash, Zero);
        if !actionAllowed { return Ok(false); }
      }
      if data.Short? { return Ok(true); }

      var ethValue :- NormalizedValue(block, data);
      if c.maxValuePerTx > 0 && ethValue > c.maxValuePerTx { return Ok(false); }

      var listed := MeetsLists(c, data);
      if !listed { return Ok(false); }
      r := MeetsDailyCaps(block.now, c, k, ethValue);
    }

    method ValidateAction(block: Block, k: Key, data: ActionData) returns (r: Result<ValidationResult>)
      ensures r == Validate(Seen(block), k, data)
    {
      if k.agentId !in identityRegistry.agents || !identityRegistry.agents[k.agentId].active {
        return Ok(REFUSED);
      }
      var ids := Get(policyRegistry.agentPermissions, k.agentId);
      for i := 0 to |ids|
        invariant Search(Seen(block), ids, k, data) == Search(Seen(block), ids[i..], k, data)
      {
        assert ids[i..][1..] == ids[i + 1..];
        var valid := policyRegistry.IsPermissionValid(block.now, ids[i]);
        if !valid { continue; }
        var accepted :- CheckConstraints(block, ids[i], k, data);
        if accepted {
          var validUntil :=
            if ids[i] in policyRegistry.permissions then policyRegistry.permissions[ids[i]].validUntil else 0;
          return Ok(ValidationResult(true, validUntil, ids[i]));
        }
      }
      return Ok(REFUSED);
    }
  }
}
