/** IdentityRegistry: who owns an agent, whether it is active, and the per-owner index of agents. */
module Identity {
  import opened Evm

  datatype Agent = Agent(owner: Address, agentId: Bytes32, metadata: string, registeredAt: Time, active: bool)

  datatype State = State(agents: map<Bytes32, Agent>, ownerAgents: map<Address, seq<Bytes32>>) {
    function OwnerOf(id: Bytes32): Address {
      if id in agents then agents[id].owner else Null
    }
    predicate IsActive(id: Bytes32) {
      id in agents && agents[id].active
    }
    function AgentsOf(o: Address): seq<Bytes32> {
      Get(ownerAgents, o)
    }
    function Push(o: Address, id: Bytes32): map<Address, seq<Bytes32>> {
      ownerAgents[o := AgentsOf(o) + [id]]
    }
  }

  const INITIAL := State(map[], map[])

  datatype Call =
    | Register(agentId: Bytes32, metadata: string)
    | Deactivate(agentId: Bytes32)
    | Reactivate(agentId: Bytes32)
    | Transfer(agentId: Bytes32, newOwner: Address)
    | UpdateMetadata(agentId: Bytes32, metadata: string)

  /** The list after its first x, if any, is overwritten by the last entry and the list shortened. */
  function SwapPop<T(==)>(s: seq<T>, x: T): seq<T> {
    if s == [] then s
    else if s[0] != x then [s[0]] + SwapPop(s[1..], x)
    else if |s| == 1 then []
    else [s[|s| - 1]] + s[1..|s| - 1]
  }

  function Apply(s: State, sender: Address, now: Time, call: Call): Result<State> {
    var id := call.agentId;
    var owner := s.OwnerOf(id);
    if call.Register? then
      if owner != Null then Revert(AgentAlreadyExists)
      else Ok(State(s.agents[id := Agent(sender, id, call.metadata, now, true)], s.Push(sender, id)))
    else if owner == Null then Revert(AgentNotFound)
    else if owner != sender then Revert(NotAgentOwner)
    else
      var agent := s.agents[id];
      match call
      case Deactivate(_) =>
        if agent.active then Ok(s.(agents := s.agents[id := agent.(active := false)]))
        else Revert(AgentAlreadyInactive)
      case Reactivate(_) =>
        if agent.active then Revert(AgentAlreadyActive)
        else Ok(s.(agents := s.agents[id := agent.(active := true)]))
      case UpdateMetadata(_, metadata) =>
        Ok(s.(agents := s.agents[id := agent.(metadata := metadata)]))
      case Transfer(_, newOwner) =>
        var removed := s.(ownerAgents := s.ownerAgents[owner := SwapPop(s.AgentsOf(owner), id)]);
        Ok(State(s.agents[id := agent.(owner := newOwner)], removed.Push(newOwner, id)))
  }

  /** Anyone registers a free id; only its nonzero owner does anything else, and the flag must change. */
  lemma CallsSucceedExactly(s: State, sender: Address, now: Time, call: Call)
    ensures var owner := s.OwnerOf(call.agentId);
            Apply(s, sender, now, call).Ok? <==>
            if call.Register? then owner == Null
            else (&& sender != Null && owner == sender
                  && (call.Deactivate? ==> s.IsActive(call.agentId))
                  && (call.Reactivate? ==> !s.IsActive(call.agentId)))
  {
  }

  /** Why a call reverts: a taken id, an unknown agent, a caller who is not its owner, or a flag already set so. */
  lemma CallsRevertExactly(s: State, sender: Address, now: Time, call: Call)
    ensures var r, owner := Apply(s, sender, now, call), s.OwnerOf(call.agentId);
            && (r == Revert(AgentAlreadyExists) <==> call.Register? && owner != Null)
            && (r == Revert(AgentNotFound) <==> !call.Register? && owner == Null)
            && (r == Revert(NotAgentOwner) <==> !call.Register? && owner != Null && owner != sender)
            && (r == Revert(AgentAlreadyInactive) <==>
                call.Deactivate? && owner == sender != Null && !s.IsActive(call.agentId))
            && (r == Revert(AgentAlreadyActive) <==>
                call.Reactivate? && owner == sender != Null && s.IsActive(call.agentId))
  {
  }

  /** What a call changes about an agent, as everyone else sees it: its owner, its flag, its metadata. */
  lemma CallsChangeExactly(s: State, sender: Address, now: Time, call: Call, id: Bytes32)
    requires Apply(s, sender, now, call).Ok? && forall x :: x in s.agents ==> s.agents[x].agentId == x
    ensures var s', named := Apply(s, sender, now, call).value, id == call.agentId;
            && s'.OwnerOf(id) == (if named && call.Register? then sender
                                  else if named && call.Transfer? then call.newOwner
                                  else s.OwnerOf(id))
            && (s'.IsActive(id) <==> if named && !call.Transfer? && !call.UpdateMetadata? then !call.Deactivate?
                                     else s.IsActive(id))
            && (named ==> id in s'.agents && s'.agents[id].agentId == id)
            && (named && (call.Register? || call.UpdateMetadata?) ==> s'.agents[id].metadata == call.metadata)
            && (named && call.Register? ==> s'.agents[id].registeredAt == now)
            && (!call.Register? && !call.Transfer? ==> s'.ownerAgents == s.ownerAgents)
            && (!named ==> (id in s'.agents <==> id in s.agents))
            && (!named && id in s.agents ==> s'.agents[id] == s.agents[id])
  {
  }

  ghost predicate NoDuplicates<T(!new)>(s: seq<T>) {
    forall i, j :: 0 <= i < j < |s| ==> s[i] != s[j]
  }

  ghost predicate ListExact(s: State, o: Address) {
    NoDuplicates(s.AgentsOf(o)) && forall id :: id in s.AgentsOf(o) <==> s.OwnerOf(id) == o
  }

  /** Every nonzero owner's list holds exactly the agents it owns, each once. */
  ghost predicate IndexExact(s: State) {
    forall o :: o != Null ==> ListExact(s, o)
  }

  /** Overwriting the first entry by the last and dropping the last leaves the rest, without duplicates. */
  lemma FirstRemoved<T(!new)>(s: seq<T>)
    requires |s| > 1 && NoDuplicates(s)
    ensures NoDuplicates([s[|s| - 1]] + s[1..|s| - 1])
    ensures forall y :: y in [s[|s| - 1]] + s[1..|s| - 1] <==> y in s && y != s[0]
  {
    var last, middle := s[|s| - 1], s[1..|s| - 1];
    assert s == [s[0]] + middle + [last];
    assert forall y :: y in s <==> y == s[0] || y in middle || y == last;
    assert last !in middle && s[0] !in middle;
    assert forall y :: y in [last] + middle <==> y == last || y in middle;
  }

  lemma {:induction false} SwapPopRemoves<T(!new)>(s: seq<T>, x: T)
    requires NoDuplicates(s)
    ensures NoDuplicates(SwapPop(s, x))
    ensures forall y :: y in SwapPop(s, x) <==> y in s && y != x
  {
    if s == [] {
    } else if s[0] != x {
      SwapPopRemoves(s[1..], x);
      var rest := SwapPop(s[1..], x);
      assert s[0] !in s[1..];
      assert forall y :: y in s <==> y == s[0] || y in s[1..];
      assert forall y :: y in [s[0]] + rest <==> y == s[0] || y in rest;
    } else if |s| > 1 {
      FirstRemoved(s);
    }
  }

  /** What the removal loop does to the array once it has found the entry, or found none. */
  lemma {:induction false} SwapPopAt<T>(s: seq<T>, x: T, i: nat)
    requires i <= |s| && x !in s[..i]
    requires i < |s| ==> s[i] == x
    ensures SwapPop(s, x) == if i < |s| then s[i := s[|s| - 1]][..|s| - 1] else s
  {
    if 0 < i {
      assert s[0] in s[..i];
      assert s[..i][1..] == s[1..][..i - 1];
      SwapPopAt(s[1..], x, i - 1);
    }
  }

  lemma PushKeepsNoDuplicates<T(!new)>(s: seq<T>, x: T)
    requires NoDuplicates(s) && x !in s
    ensures NoDuplicates(s + [x])
  {
  }

  lemma RegisterKeepsList(s: State, sender: Address, now: Time, call: Call, o: Address)
    requires call.Register? && ListExact(s, o) && o != Null && Apply(s, sender, now, call).Ok?
    ensures ListExact(Apply(s, sender, now, call).value, o)
  {
    var s', id := Apply(s, sender, now, call).value, call.agentId;
    assert id !in s.AgentsOf(o);
    if o == sender {
      PushKeepsNoDuplicates(s.AgentsOf(o), id);
    }
    assert s'.AgentsOf(o) == if o == sender then s.AgentsOf(o) + [id] else s.AgentsOf(o);
    assert forall x :: s'.OwnerOf(x) == if x == id then sender else s.OwnerOf(x);
  }

  lemma TransferKeepsList(s: State, sender: Address, now: Time, call: Call, o: Address)
    requires call.Transfer? && ListExact(s, o) && o != Null && Apply(s, sender, now, call).Ok?
    ensures ListExact(Apply(s, sender, now, call).value, o)
  {
    var s', id := Apply(s, sender, now, call).value, call.agentId;
    var kept := s.AgentsOf(o);
    if o == s.OwnerOf(id) {
      SwapPopRemoves(kept, id);
      kept := SwapPop(kept, id);
    }
    assert id !in kept && forall x :: x in kept <==> s.OwnerOf(x) == o && x != id;
    if o == call.newOwner {
      PushKeepsNoDuplicates(kept, id);
    }
    assert s'.AgentsOf(o) == if o == call.newOwner then kept + [id] else kept;
    assert forall x :: s'.OwnerOf(x) == if x == id then call.newOwner else s.OwnerOf(x);
  }

  /** Registration, re-registration after a transfer to zero, self-transfer and transfer all keep the index exact. */
  lemma ApplyKeepsIndex(s: State, sender: Address, now: Time, call: Call)
    requires IndexExact(s) && Apply(s, sender, now, call).Ok?
    ensures IndexExact(Apply(s, sender, now, call).value)
  {
    var s' := Apply(s, sender, now, call).value;
    forall o | o != Null
      ensures ListExact(s', o)
    {
      assert ListExact(s, o);
      if call.Transfer? {
        TransferKeepsList(s, sender, now, call, o);
      } else if call.Register? {
        RegisterKeepsList(s, sender, now, call, o);
      } else {
        assert s'.AgentsOf(o) == s.AgentsOf(o);
        assert forall x :: s'.OwnerOf(x) == s.OwnerOf(x);
      }
    }
  }

  class IdentityRegistry {
    var agents: map<Bytes32, Agent>
    var ownerAgents: map<Address, seq<Bytes32>>

    ghost function View(): State
      reads this
    {
      State(agents, ownerAgents)
    }

    constructor ()
      ensures View() == INITIAL
    {
      agents, ownerAgents := map[], map[];
    }

    method RegisterAgent(sender: Address, now: Time, agentId: Bytes32, metadata: string) returns (r: Result<()>)
      modifies this
      ensures Commits(old(View()), r, View(), Apply(old(View()), sender, now, Register(agentId, metadata)))
    {
      if agentId in agents && agents[agentId].owner != Null {
        return Revert(AgentAlreadyExists);
      }
      agents := agents[agentId := Agent(sender, agentId, metadata, now, true)];
      ownerAgents := ownerAgents[sender := Get(ownerAgents, sender) + [agentId]];
      return Ok(());
    }

    /** The two guards every owner-only function starts with. */
    method RequireOwner(sender: Address, agentId: Bytes32) returns (r: Result<()>)
      ensures r == (if View().OwnerOf(agentId) == Null then Revert(AgentNotFound)
                    else if View().OwnerOf(agentId) != sender then Revert(NotAgentOwner)
                    else Ok(()))
    {
      if agentId !in agents || agents[agentId].owner == Null {
        return Revert(AgentNotFound);
      }
      if agents[agentId].owner != sender {
        return Revert(NotAgentOwner);
      }
      return Ok(());
    }

    method DeactivateAgent(sender: Address, now: Time, agentId: Bytes32) returns (r: Result<()>)
      modifies this
      ensures Commits(old(View()), r, View(), Apply(old(View()), sender, now, Deactivate(agentId)))
    {
      r := RequireOwner(sender, agentId);
      if r.Revert? { return; }
      if !agents[agentId].active {
        return Revert(AgentAlreadyInactive);
      }
      agents := agents[agentId := agents[agentId].(active := false)];
    }

    method ReactivateAgent(sender: Address, now: Time, agentId: Bytes32) returns (r: Result<()>)
      modifies this
      ensures Commits(old(View()), r, View(), Apply(old(View()), sender, now, Reactivate(agentId)))
    {
      r := RequireOwner(sender, agentId);
      if r.Revert? { return; }
      if agents[agentId].active {
        return Revert(AgentAlreadyActive);
      }
      agents := agents[agentId := agents[agentId].(active := true)];
    }

    method UpdateMetadata(sender: Address, now: Time, agentId: Bytes32, metadata: string) returns (r: Result<()>)
      modifies this
      ensures Commits(old(View()), r, View(), Apply(old(View()), sender, now, Call.UpdateMetadata(agentId, metadata)))
    {
      r := RequireOwner(sender, agentId);
      if r.Revert? { return; }
      agents := agents[agentId := agents[agentId].(metadata := metadata)];
    }

    /** The removal loop of transferAgent. */
    method RemoveFromIndex(oldOwner: Address, agentId: Bytes32)
      modifies this`ownerAgents
      ensures ownerAgents == old(ownerAgents)[oldOwner := SwapPop(Get(old(ownerAgents), oldOwner), agentId)]
    {
      var list := Get(ownerAgents, oldOwner);
      var i := 0;
      while i < |list| && list[i] != agentId
        invariant 0 <= i <= |list|
        invariant agentId !in list[..i]
      {
        i := i + 1;
      }
      SwapPopAt(list, agentId, i);
      if i < |list| {
        list := list[i := list[|list| - 1]];
        list := list[..|list| - 1];
      }
      ownerAgents := ownerAgents[oldOwner := list];
    }

    method TransferAgent(sender: Address, now: Time, agentId: Bytes32, newOwner: Address) returns (r: Result<()>)
      modifies this
      ensures Commits(old(View()), r, View(), Apply(old(View()), sender, now, Transfer(agentId, newOwner)))
    {
      r := RequireOwner(sender, agentId);
      if r.Revert? { return; }
      var oldOwner := agents[agentId].owner;
      agents := agents[agentId := agents[agentId].(owner := newOwner)];

      RemoveFromIndex(oldOwner, agentId);
      ownerAgents := ownerAgents[newOwner := Get(ownerAgents, newOwner) + [agentId]];
    }
  }
}
