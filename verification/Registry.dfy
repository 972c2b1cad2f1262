/** PolicyRegistry: policies, the permissions granted from them, and the per-agent index of permissions. */
module Registry {
  import opened Evm
  import Identity

  datatype Policy = Policy(owner: Address, contentHash: Bytes32, version: Word,
                           createdAt: Time, updatedAt: Time, active: bool)

  datatype Permission = Permission(policyId: Bytes32, agentId: Bytes32, grantor: Address,
                                   validFrom: Word, validUntil: Word, revoked: bool)

  const NO_PERMISSION := Permission(Zero, Zero, Null, 0, 0, false)

  datatype State = State(
    policies: map<Bytes32, Policy>,
    permissions: map<Bytes32, Permission>,
    ownerPolicies: map<Address, seq<Bytes32>>,
    agentPermissions: map<Bytes32, seq<Bytes32>>)
  {
    function PolicyOwner(id: Bytes32): Address {
      if id in policies then policies[id].owner else Null
    }
    predicate PolicyActive(id: Bytes32) {
      id in policies && policies[id].active
    }
    function PermissionOf(id: Bytes32): Permission {
      if id in permissions then permissions[id] else NO_PERMISSION
    }
    function PermissionsOf(agentId: Bytes32): seq<Bytes32> {
      Get(agentPermissions, agentId)
    }
  }

  const INITIAL := State(map[], map[], map[], map[])

  datatype Call =
    | CreatePolicy(contentHash: Bytes32)
    | UpdatePolicy(policyId: Bytes32, contentHash: Bytes32)
    | DeactivatePolicy(policyId: Bytes32)
    | ReactivatePolicy(policyId: Bytes32)
    | GrantPermission(policyId: Bytes32, agentId: Bytes32, validFrom: Word, validUntil: Word)
    | RevokePermission(permissionId: Bytes32)

  /** The owner-only updates of an existing policy. */
  function ChangePolicy(s: State, sender: Address, now: Time, call: Call): Result<State>
    requires call.UpdatePolicy? || call.DeactivatePolicy? || call.ReactivatePolicy?
  {
    var id := call.policyId;
    if s.PolicyOwner(id) == Null then Revert(PolicyNotFound)
    else if s.PolicyOwner(id) != sender then Revert(NotPolicyOwner)
    else
      var p := s.policies[id].(updatedAt := now);
      if !call.UpdatePolicy? then
        Ok(s.(policies := s.policies[id := p.(active := call.ReactivatePolicy?)]))
      else
        var version :- Checked(p.version + 1);
        Ok(s.(policies := s.policies[id := p.(contentHash := call.contentHash, version := version)]))
  }

  function Grant(s: State, active: bool, sender: Address, now: Time,
                 policyId: Bytes32, agentId: Bytes32, validFrom: Word, validUntil: Word): Result<State> {
    if s.PolicyOwner(policyId) == Null then Revert(PolicyNotFound)
    else if !s.PolicyActive(policyId) then Revert(PolicyNotActive)
    else if s.PolicyOwner(policyId) != sender then Revert(NotPolicyOwner)
    else if !active then Revert(AgentNotRegistered)
    else if validUntil != 0 && validUntil <= validFrom then Revert(InvalidValidityPeriod)
    else
      var id := PermissionId(policyId, agentId, sender, now);
      var from := if validFrom == 0 then now else validFrom;
      Ok(s.(permissions := s.permissions[id := Permission(policyId, agentId, sender, from, validUntil, false)],
            agentPermissions := s.agentPermissions[agentId := s.PermissionsOf(agentId) + [id]]))
  }

  function Revoke(s: State, sender: Address, id: Bytes32): Result<State> {
    var permission := s.PermissionOf(id);
    if permission.grantor == Null then Revert(PermissionNotFound)
    else if permission.revoked then Revert(PermissionAlreadyRevoked)
    else if permission.grantor != sender then Revert(NotPolicyOwner)
    else Ok(s.(permissions := s.permissions[id := permission.(revoked := true)]))
  }

  function Apply(s: State, agents: Identity.State, sender: Address, now: Time, call: Call): Result<State> {
    match call
    case CreatePolicy(contentHash) =>
      var id := PolicyId(sender, contentHash, now);
      Ok(s.(policies := s.policies[id := Policy(sender, contentHash, 1, now, now, true)],
            ownerPolicies := s.ownerPolicies[sender := Get(s.ownerPolicies, sender) + [id]]))
    case GrantPermission(policyId, agentId, validFrom, validUntil) =>
      Grant(s, agents.IsActive(agentId), sender, now, policyId, agentId, validFrom, validUntil)
    case RevokePermission(id) => Revoke(s, sender, id)
    case _ => ChangePolicy(s, sender, now, call)
  }

  predicate Expired(p: Permission, now: Time) {
    p.validUntil != 0 && p.validUntil < now
  }

  /** isPermissionValid at time now. */
  predicate IsValid(s: State, now: Time, id: Bytes32) {
    var p := s.PermissionOf(id);
    p.grantor != Null && !p.revoked && p.validFrom <= now && !Expired(p, now) && s.PolicyActive(p.policyId)
  }

  /** A created policy is the caller's, active, at version 1, and no other policy changes. */
  lemma CreatesExactly(s: State, agents: Identity.State, sender: Address, now: Time, contentHash: Bytes32, x: Bytes32)
    ensures var r, id := Apply(s, agents, sender, now, CreatePolicy(contentHash)), PolicyId(sender, contentHash, now);
            && r.Ok? && id in r.value.policies
            && r.value.PolicyOwner(id) == sender && r.value.PolicyActive(id)
            && r.value.policies[id].version == 1 && r.value.policies[id].contentHash == contentHash
            && r.value.policies[id].createdAt == r.value.policies[id].updatedAt == now
            && (x != id ==> (x in r.value.policies <==> x in s.policies))
            && (x != id && x in s.policies ==> r.value.policies[x] == s.policies[x])
            && r.value.permissions == s.permissions
  {
  }

  /** Only its nonzero owner changes a policy: the flag as asked, or the content and the next version. */
  lemma ChangesExactly(s: State, sender: Address, now: Time, call: Call, x: Bytes32)
    requires call.UpdatePolicy? || call.DeactivatePolicy? || call.ReactivatePolicy?
    ensures ChangePolicy(s, sender, now, call).Ok? <==>
            && sender != Null && s.PolicyOwner(call.policyId) == sender
            && (call.UpdatePolicy? ==> s.policies[call.policyId].version < UINT256_LIMIT - 1)
    ensures ChangePolicy(s, sender, now, call).Ok? ==>
              var s', named := ChangePolicy(s, sender, now, call).value, x == call.policyId;
              && s'.PolicyOwner(x) == s.PolicyOwner(x)
              && (s'.PolicyActive(x) <==>
                  if named && !call.UpdatePolicy? then call.ReactivatePolicy? else s.PolicyActive(x))
              && (x in s.policies ==>
                    && x in s'.policies
                    && s'.policies[x].version == s.policies[x].version + (if named && call.UpdatePolicy? then 1 else 0)
                    && s'.policies[x].contentHash
                       == (if named && call.UpdatePolicy? then call.contentHash else s.policies[x].contentHash)
                    && s'.policies[x].createdAt == s.policies[x].createdAt
                    && s'.policies[x].updatedAt == (if named then now else s.policies[x].updatedAt))
              && s'.permissions == s.permissions
  {
  }

  /** A grant succeeds exactly for the owner of an active policy, an active agent and a window that does not
      end by the requested start, and adds exactly one unrevoked record. */
  lemma GrantsExactly(s: State, active: bool, sender: Address, now: Time,
                      policyId: Bytes32, agentId: Bytes32, validFrom: Word, validUntil: Word, x: Bytes32)
    ensures var r := Grant(s, active, sender, now, policyId, agentId, validFrom, validUntil);
            && (r.Ok? <==> && sender != Null && s.PolicyOwner(policyId) == sender && s.PolicyActive(policyId) && active
                           && (validUntil == 0 || validUntil > validFrom))
            && (r.Ok? ==>
                  var id := PermissionId(policyId, agentId, sender, now);
                  && !r.value.PermissionOf(id).revoked && r.value.PermissionOf(id).grantor == sender
                  && r.value.PermissionOf(id).policyId == policyId && r.value.PermissionOf(id).agentId == agentId
                  && (x != id ==> r.value.PermissionOf(x) == s.PermissionOf(x))
                  && r.value.policies == s.policies)
  {
  }

  /** A permission is revoked exactly by its nonzero grantor, once, and keeps all else. */
  lemma RevokesExactly(s: State, sender: Address, id: Bytes32, x: Bytes32)
    ensures Revoke(s, sender, id).Ok? <==>
            sender != Null && s.PermissionOf(id).grantor == sender && !s.PermissionOf(id).revoked
    ensures Revoke(s, sender, id).Ok? ==>
              var s' := Revoke(s, sender, id).value;
              && s'.PermissionOf(id).revoked
              && s'.PermissionOf(id).(revoked := false) == s.PermissionOf(id)
              && (x != id ==> s'.PermissionOf(x) == s.PermissionOf(x)) && s'.policies == s.policies
  {
  }

  /** Why a call reverts: each error has its own case, checked in this order. */
  lemma CallsRevertExactly(s: State, agents: Identity.State, sender: Address, now: Time, call: Call)
    ensures var r := Apply(s, agents, sender, now, call);
            && (call.CreatePolicy? ==> r.Ok?)
            && (call.RevokePermission? ==>
                  var p := s.PermissionOf(call.permissionId);
                  && (r == Revert(PermissionNotFound) <==> p.grantor == Null)
                  && (r == Revert(PermissionAlreadyRevoked) <==> p.grantor != Null && p.revoked)
                  && (r == Revert(NotPolicyOwner) <==> p.grantor != Null && !p.revoked && p.grantor != sender))
            && (!call.CreatePolicy? && !call.RevokePermission? ==>
                  var owner := s.PolicyOwner(call.policyId);
                  && (r == Revert(PolicyNotFound) <==> owner == Null)
                  && (r == Revert(NotPolicyOwner) <==>
                      owner != Null && owner != sender && (call.GrantPermission? ==> s.PolicyActive(call.policyId)))
                  && (r == Revert(Panic) <==>
                      call.UpdatePolicy? && owner == sender != Null
                      && s.policies[call.policyId].version == UINT256_LIMIT - 1))
            && (call.GrantPermission? ==>
                  var owner, running := s.PolicyOwner(call.policyId), s.PolicyActive(call.policyId);
                  && (r == Revert(PolicyNotActive) <==> owner != Null && !running)
                  && (r == Revert(AgentNotRegistered) <==>
                      owner == sender != Null && running && !agents.IsActive(call.agentId))
                  && (r == Revert(InvalidValidityPeriod) <==>
                      owner == sender != Null && running && agents.IsActive(call.agentId)
                      && call.validUntil != 0 && call.validUntil <= call.validFrom))
  {
  }

  /** While the record of a grant stands and its policy is active, the permission is valid exactly inside the
      window that was asked for, a zero bound leaving that side open. */
  lemma GrantedWindow(s: State, active: bool, sender: Address, now: Time,
                      policyId: Bytes32, agentId: Bytes32, validFrom: Word, validUntil: Word, later: State, t: Time)
    requires Grant(s, active, sender, now, policyId, agentId, validFrom, validUntil).Ok? && now <= t
    requires var id := PermissionId(policyId, agentId, sender, now);
             later.PermissionOf(id)
             == Grant(s, active, sender, now, policyId, agentId, validFrom, validUntil).value.PermissionOf(id)
    requires later.PolicyActive(policyId)
    ensures IsValid(later, t, PermissionId(policyId, agentId, sender, now)) <==>
            (validFrom == 0 || validFrom <= t) && (validUntil == 0 || t <= validUntil)
  {
  }

  /** Policies are stored under the hash of their creation, and the owner index lists exactly them. */
  ghost predicate PoliciesExact(s: State, now: Time) {
    && (forall id :: id in s.policies ==>
          id.PolicyId? && id.createdAt <= now && s.policies[id].owner == id.owner)
    && (forall o, id :: id in Get(s.ownerPolicies, o) <==> id in s.policies && s.policies[id].owner == o)
  }

  /** Permissions are stored under the hash of their grant, and the grantor owns the policy named. */
  ghost predicate GrantorsOwn(s: State, now: Time) {
    forall id :: id in s.permissions ==>
      var p := s.permissions[id];
      && id.PermissionId? && id.grantedAt <= now
      && p.policyId == id.policyId && p.agentId == id.agentId && p.grantor == id.grantor
      && p.grantor != Null && p.grantor == s.PolicyOwner(p.policyId)
  }

  /** As a set, an agent's list is exactly the permissions granted to it. */
  ghost predicate IndexExact(s: State) {
    forall a, id :: id in s.PermissionsOf(a) <==> id in s.permissions && s.permissions[id].agentId == a
  }

  ghost predicate Inv(s: State, now: Time) {
    PoliciesExact(s, now) && GrantorsOwn(s, now) && IndexExact(s)
  }

  lemma CreateKeepsInv(s: State, agents: Identity.State, sender: Address, now: Time, call: Call)
    requires Inv(s, now) && call.CreatePolicy?
    ensures Inv(Apply(s, agents, sender, now, call).value, now)
  {
    var s' := Apply(s, agents, sender, now, call).value;
    var added := PolicyId(sender, call.contentHash, now);
    assert IndexExact(s') by {
      assert forall a :: s'.PermissionsOf(a) == s.PermissionsOf(a);
    }
    forall o, id
      ensures id in Get(s'.ownerPolicies, o) <==> id in s'.policies && s'.policies[id].owner == o
    {
      assert id in Get(s.ownerPolicies, o) <==> id in s.policies && s.policies[id].owner == o;
      assert id in Get(s'.ownerPolicies, o) <==> id in Get(s.ownerPolicies, o) || (o == sender && id == added);
    }
  }

  lemma ChangeKeepsInv(s: State, sender: Address, now: Time, call: Call)
    requires Inv(s, now) && (call.UpdatePolicy? || call.DeactivatePolicy? || call.ReactivatePolicy?)
    requires ChangePolicy(s, sender, now, call).Ok?
    ensures Inv(ChangePolicy(s, sender, now, call).value, now)
  {
    var s' := ChangePolicy(s, sender, now, call).value;
    assert s'.policies.Keys == s.policies.Keys;
    assert forall id :: id in s.policies ==> s'.policies[id].owner == s.policies[id].owner;
    assert forall a :: s'.PermissionsOf(a) == s.PermissionsOf(a);
    assert forall o :: Get(s'.ownerPolicies, o) == Get(s.ownerPolicies, o);
  }

  lemma GrantKeepsInv(s: State, active: bool, sender: Address, now: Time,
                      policyId: Bytes32, agentId: Bytes32, validFrom: Word, validUntil: Word)
    requires Inv(s, now)
    requires Grant(s, active, sender, now, policyId, agentId, validFrom, validUntil).Ok?
    ensures Inv(Grant(s, active, sender, now, policyId, agentId, validFrom, validUntil).value, now)
  {
    var s' := Grant(s, active, sender, now, policyId, agentId, validFrom, validUntil).value;
    var added := PermissionId(policyId, agentId, sender, now);
    forall a, id
      ensures id in s'.PermissionsOf(a) <==> id in s'.permissions && s'.permissions[id].agentId == a
    {
      assert id in s.PermissionsOf(a) <==> id in s.permissions && s.permissions[id].agentId == a;
      assert id in s'.PermissionsOf(a) <==> id in s.PermissionsOf(a) || (a == agentId && id == added);
    }
  }

  lemma RevokeKeepsInv(s: State, sender: Address, now: Time, id: Bytes32)
    requires Inv(s, now) && Revoke(s, sender, id).Ok?
    ensures Inv(Revoke(s, sender, id).value, now)
  {
    var s' := Revoke(s, sender, id).value;
    assert id in s.permissions;
    assert forall a :: s'.PermissionsOf(a) == s.PermissionsOf(a);
  }

  lemma ApplyKeepsInv(s: State, agents: Identity.State, sender: Address, now: Time, call: Call)
    requires Inv(s, now) && Apply(s, agents, sender, now, call).Ok?
    ensures Inv(Apply(s, agents, sender, now, call).value, now)
  {
    match call
    case CreatePolicy(_) => CreateKeepsInv(s, agents, sender, now, call);
    case GrantPermission(policyId, agentId, validFrom, validUntil) =>
      GrantKeepsInv(s, agents.IsActive(agentId), sender, now, policyId, agentId, validFrom, validUntil);
    case RevokePermission(id) => RevokeKeepsInv(s, sender, now, id);
    case _ => ChangeKeepsInv(s, sender, now, call);
  }

  /** p' is p, or p after its revocation. */
  predicate SameOrRevoked(p: Permission, p': Permission) {
    p' == p || p' == p.(revoked := true)
  }

  /** A grant made in an earlier block is changed by no call, except that it may become revoked. */
  lemma ApplyKeepsPermission(s: State, agents: Identity.State, sender: Address, now: Time, call: Call, id: Bytes32)
    requires id in s.permissions && id.PermissionId? && id.grantedAt < now
    requires Apply(s, agents, sender, now, call).Ok?
    ensures var s' := Apply(s, agents, sender, now, call).value;
            id in s'.permissions && SameOrRevoked(s.permissions[id], s'.permissions[id])
  {
    if call.RevokePermission? && call.permissionId == id {
      assert s.PermissionOf(id) == s.permissions[id];
    }
  }

  class PolicyRegistry {
    const identityRegistry: Identity.IdentityRegistry
    var policies: map<Bytes32, Policy>
    var permissions: map<Bytes32, Permission>
    var ownerPolicies: map<Address, seq<Bytes32>>
    var agentPermissions: map<Bytes32, seq<Bytes32>>

    ghost function View(): State
      reads this
    {
      State(policies, permissions, ownerPolicies, agentPermissions)
    }

    /** What the specification says this call does now. */
    ghost function Spec(sender: Address, now: Time, call: Call): Result<State>
      reads this, identityRegistry
    {
      Apply(View(), identityRegistry.View(), sender, now, call)
    }

    constructor (identityRegistry: Identity.IdentityRegistry)
      ensures View() == INITIAL && this.identityRegistry == identityRegistry
    {
      this.identityRegistry := identityRegistry;
      policies, permissions, ownerPolicies, agentPermissions := map[], map[], map[], map[];
    }

    method CreatePolicy(sender: Address, now: Time, contentHash: Bytes32) returns (policyId: Bytes32)
      modifies this
      ensures policyId == PolicyId(sender, contentHash, now)
      ensures Commits(old(View()), Ok(()), View(), old(Spec(sender, now, Call.CreatePolicy(contentHash))))
    {
      policyId := PolicyId(sender, contentHash, now);
      policies := policies[policyId := Policy(sender, contentHash, 1, now, now, true)];
      ownerPolicies := ownerPolicies[sender := Get(ownerPolicies, sender) + [policyId]];
    }

    method RequireOwner(sender: Address, id: Bytes32) returns (r: Result<()>)
      ensures r == (if View().PolicyOwner(id) == Null then Revert(PolicyNotFound)
                    else if View().PolicyOwner(id) != sender then Revert(NotPolicyOwner)
                    else Ok(()))
    {
      if id !in policies || policies[id].owner == Null {
        return Revert(PolicyNotFound);
      }
      if policies[id].owner != sender {
        return Revert(NotPolicyOwner);
      }
      return Ok(());
    }

    method UpdatePolicy(sender: Address, now: Time, id: Bytes32, contentHash: Bytes32) returns (r: Result<()>)
      modifies this
      ensures Commits(old(View()), r, View(), old(Spec(sender, now, Call.UpdatePolicy(id, contentHash))))
    {
      r := RequireOwner(sender, id);
      if r.Revert? { return; }
      if policies[id].version + 1 >= UINT256_LIMIT {
        return Revert(Panic);
      }
      var policy := policies[id];
      policies := policies[id := policy.(contentHash := contentHash, version := policy.version + 1, updatedAt := now)];
    }

    method DeactivatePolicy(sender: Address, now: Time, id: Bytes32) returns (r: Result<()>)
      modifies this
      ensures Commits(old(View()), r, View(), old(Spec(sender, now, Call.DeactivatePolicy(id))))
    {
      r := RequireOwner(sender, id);
      if r.Revert? { return; }
      policies := policies[id := policies[id].(active := false, updatedAt := now)];
    }

    method ReactivatePolicy(sender: Address, now: Time, id: Bytes32) returns (r: Result<()>)
      modifies this
      ensures Commits(old(View()), r, View(), old(Spec(sender, now, Call.ReactivatePolicy(id))))
    {
      r := RequireOwner(sender, id);
      if r.Revert? { return; }
      policies := policies[id := policies[id].(active := true, updatedAt := now)];
    }

    method GrantPermission(sender: Address, now: Time,
                             policyId: Bytes32, agentId: Bytes32, validFrom: Word, validUntil: Word)
      returns (r: Result<()>, permissionId: Bytes32)
      modifies this
      ensures Commits(old(View()), r, View(),
                      old(Spec(sender, now, Call.GrantPermission(policyId, agentId, validFrom, validUntil))))
      ensures r.Ok? ==> permissionId == PermissionId(policyId, agentId, sender, now)
    {
      permissionId := Zero;
      if policyId !in policies || policies[policyId].owner == Null {
        return Revert(PolicyNotFound), permissionId;
      }
      if !policies[policyId].active {
        return Revert(PolicyNotActive), permissionId;
      }
      if policies[policyId].owner != sender {
        return Revert(NotPolicyOwner), permissionId;
      }
      if agentId !in identityRegistry.agents || !identityRegistry.agents[agentId].active {
        return Revert(AgentNotRegistered), permissionId;
      }
      if validUntil != 0 && validUntil <= validFrom {
        return Revert(InvalidValidityPeriod), permissionId;
      }
      permissionId := PermissionId(policyId, agentId, sender, now);
      var from := if validFrom == 0 then now else validFrom;
      permissions := permissions[permissionId := Permission(policyId, agentId, sender, from, validUntil, false)];
      agentPermissions := agentPermissions[agentId := Get(agentPermissions, agentId) + [permissionId]];
      r := Ok(());
    }

    method RevokePermission(sender: Address, now: Time, id: Bytes32) returns (r: Result<()>)
      modifies this
      ensures Commits(old(View()), r, View(), old(Spec(sender, now, Call.RevokePermission(id))))
    {
      if id !in permissions || permissions[id].grantor == Null {
        return Revert(PermissionNotFound);
      }
      if permissions[id].revoked {
        return Revert(PermissionAlreadyRevoked);
      }
      if permissions[id].grantor != sender {
        return Revert(NotPolicyOwner);
      }
      permissions := permissions[id := permissions[id].(revoked := true)];
      return Ok(());
    }

    method IsPermissionValid(now: Time, id: Bytes32) returns (valid: bool)
      ensures valid == IsValid(View(), now, id)
    {
      if id !in permissions || permissions[id].grantor == Null { return false; }
      var permission := permissions[id];
      if permission.revoked { return false; }
      if now < permission.validFrom { return false; }
      if permission.validUntil != 0 && now > permission.validUntil { return false; }
      return permission.policyId in policies && policies[permission.policyId].active;
    }
  }
}
