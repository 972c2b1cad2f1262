/** What the parts give together: from a reachable state through a user operation, from a definition to an account. */
module Assurance {
  import opened Evm
  import Account
  import Arithmetic
  import Enforcer
  import Guardrail
  import Hex
  import Ledger
  import Oracle
  import PolicyAgreement
  import PolicySync
  import Registry

  /** The permission behind a call: granted to the account's agent by the owner of its active policy,
      unrevoked, in its window, and with constraints that accept the call. */
  ghost predicate Backs(w: Enforcer.World, c: Account.Config, selector: Selector, call: Account.Call, id: Bytes32) {
    && id in w.registry.permissions
    && var p := w.registry.permissions[id];
    && p.agentId == c.agentId && !p.revoked
    && p.validFrom <= w.block.now && (p.validUntil == 0 || w.block.now <= p.validUntil)
    && w.registry.PolicyActive(p.policyId) && p.grantor == w.registry.PolicyOwner(p.policyId) && p.grantor != Null
    && Enforcer.Judge(w, id, Account.KeyOf(c, selector, call.target),
                      Account.AskedData(c, call.target, call.value)) == Ok(true)
  }

  lemma AcceptedIsBacked(block: Block, owner: Address, steps: seq<Guardrail.Step>,
                         c: Account.Config, selector: Selector, call: Account.Call) returns (id: Bytes32)
    requires Account.Ask(Guardrail.Run(Guardrail.Genesis(block, owner), steps), c, selector, call.target, call.value)
             == Ok(true)
    ensures Backs(Guardrail.Run(Guardrail.Genesis(block, owner), steps), c, selector, call, id)
  {
    var w := Guardrail.Run(Guardrail.Genesis(block, owner), steps);
    var k, data := Account.KeyOf(c, selector, call.target), Account.AskedData(c, call.target, call.value);
    var result := Enforcer.Validate(w, k, data).value;
    Guardrail.AcceptedIsAuthorized(block, owner, steps, k, data);
    Enforcer.ValidateIsEarliest(w, k, data, result);
    id := result.permissionId;
  }

  /** In every reachable state: if validateUserOp returned 0 and the same calldata then runs, every call it
      makes is backed by a live permission of the account's agent. */
  lemma ExecutedIsBacked(block: Block, owner: Address, steps: seq<Guardrail.Step>, env: Account.Env,
                         c: Account.Config, signed: bool, b: Ledger.Balances, cd: Account.Calldata)
    requires Account.Screen(Guardrail.Run(Guardrail.Genesis(block, owner), steps), c, c.entryPoint, signed, cd)
             == Ok(true)
    requires Account.Perform(env, c, c.entryPoint, b, cd).Ok?
    ensures Account.CallsOf(cd).Ok?
    ensures forall call :: call in Account.CallsOf(cd).value ==>
              exists id :: Backs(Guardrail.Run(Guardrail.Genesis(block, owner), steps), c, cd.selector, call, id)
  {
    var w := Guardrail.Run(Guardrail.Genesis(block, owner), steps);
    Account.ExecutedWasAccepted(w, env, c, signed, b, cd);
    forall call | call in Account.CallsOf(cd).value
      ensures exists id :: Backs(w, c, cd.selector, call, id)
    {
      var id := AcceptedIsBacked(block, owner, steps, c, cd.selector, call);
    }
  }

  // ----- targets without a price feed -----

  /** An earlier permission that the search passes over: not valid now, or constrained to other actions. */
  predicate PassedOver(w: Enforcer.World, id: Bytes32, actionHash: Bytes32) {
    || !Registry.IsValid(w.registry, w.block.now, id)
    || (!w.enforcer.ConstraintsOf(id).Empty()
        && !Enforcer.Allows(w.enforcer.ConstraintsOf(id).allowedActions, actionHash, Zero))
  }

  /** Some valid permission has no constraints, and every permission before it is passed over. */
  ghost predicate ReachesUnconstrained(w: Enforcer.World, ids: seq<Bytes32>, actionHash: Bytes32) {
    exists i :: 0 <= i < |ids|
      && Registry.IsValid(w.registry, w.block.now, ids[i]) && w.enforcer.ConstraintsOf(ids[i]).Empty()
      && forall j :: 0 <= j < i ==> PassedOver(w, ids[j], actionHash)
  }

  /** With an unpriced token the verdict on one permission is decided by its window, its emptiness and its actions. */
  lemma UnpricedVerdict(w: Enforcer.World, id: Bytes32, k: Enforcer.Key, data: Enforcer.ActionData)
    requires !data.Short? && Enforcer.EthValue(w.enforcer, w.block, data).Revert?
    ensures Enforcer.Judge(w, id, k, data) == Ok(false) <==> PassedOver(w, id, k.actionHash)
    ensures Enforcer.Judge(w, id, k, data) == Ok(true) <==>
            Registry.IsValid(w.registry, w.block.now, id) && w.enforcer.ConstraintsOf(id).Empty()
  {
  }

  /** With an unpriced token a permission decides the search exactly when it is not passed over. */
  lemma UnpricedEarliest(w: Enforcer.World, ids: seq<Bytes32>, i: nat, k: Enforcer.Key, data: Enforcer.ActionData)
    requires !data.Short? && Enforcer.EthValue(w.enforcer, w.block, data).Revert? && i < |ids|
    ensures Enforcer.Earliest(w, ids, i, k, data) && Enforcer.Judge(w, ids[i], k, data) == Ok(true) <==>
            && Registry.IsValid(w.registry, w.block.now, ids[i]) && w.enforcer.ConstraintsOf(ids[i]).Empty()
            && forall j :: 0 <= j < i ==> PassedOver(w, ids[j], k.actionHash)
  {
    forall j | 0 <= j < |ids| {
      UnpricedVerdict(w, ids[j], k, data);
    }
  }

  /** The account passes the target as the token. With an oracle that has no feed for a nonzero target, a call
      is accepted exactly when the agent is active and the search reaches a valid permission without any
      constraints before a valid one that allows the action: that one makes the validation revert. */
  lemma UnpricedTargetExactly(w: Enforcer.World, c: Account.Config, selector: Selector, target: Address, value: Word)
    requires w.enforcer.oracle.Some? && target != Null && w.enforcer.oracle.value.FeedOf(target) == Null
    ensures Account.Ask(w, c, selector, target, value) == Ok(true) <==>
            w.identity.IsActive(c.agentId) &&
            ReachesUnconstrained(w, w.registry.PermissionsOf(c.agentId), ActionId(target, selector))
  {
    var k, data := Account.KeyOf(c, selector, target), Account.AskedData(c, target, value);
    var ids := w.registry.PermissionsOf(c.agentId);
    forall i: nat | i < |ids| {
      UnpricedEarliest(w, ids, i, k, data);
    }
    Enforcer.AcceptedByEarliest(w, k, data);
  }

  // ----- synced definitions and accounts -----

  predicate NamesAction(def: PolicySync.Definition) {
    exists i :: 0 <= i < |def.actions| && def.actions[i] != "*"
  }

  /** The enforcer's verdict on an account's call under the compiled constraints. */
  function Verdict(def: PolicySync.Definition, c: Account.Config, s: Enforcer.State, block: Block,
                   today: Enforcer.Today, selector: Selector, target: Address, value: Word): Result<bool> {
    Enforcer.Check(PolicySync.OnChain(PolicySync.Build(def)), today,
                   Enforcer.EthValue(s, block, Account.AskedData(c, target, value)),
                   ActionId(target, selector), Account.AskedData(c, target, value))
  }

  /** Under the compiled constraints, and with the oracle of this state and block, the enforcer accepts no
      call of an account on this chain, whatever it calls, sends or has used today. */
  ghost predicate RefusesAccounts(def: PolicySync.Definition, c: Account.Config, s: Enforcer.State, block: Block) {
    forall today, selector, target, value ::
      Verdict(def, c, s, block, today, selector, target, value) != Ok(true)
  }

  /** What shuts accounts out: a named action, since synced lists hold hashes of names while accounts ask
      about hashes of (target, selector); a protocol list, since accounts give none; or a chain list
      without the account's chain. */
  predicate ShutsOut(def: PolicySync.Definition, c: Account.Config) {
    || NamesAction(def)
    || !Enforcer.Allows(PolicySync.CompileAddresses(def.protocols), Null, Null)
    || !Enforcer.Allows(PolicySync.AbiUints(def.chains), c.chainId, 0)
  }

  /** The token list leaves out ETH and holds nothing that can be quoted, so that no target passes it. */
  predicate Unquoted(def: PolicySync.Definition, s: Enforcer.State, block: Block) {
    var tokens := PolicySync.CompileAddresses(def.tokens);
    && !Enforcer.Allows(tokens, Null, Null)
    && forall t :: t in tokens ==> Enforcer.RateFor(s, block, t).Revert?
  }

  lemma NamedActionsExcludeCalls(def: PolicySync.Definition, target: Address, selector: Selector)
    ensures Enforcer.Allows(PolicySync.CompileActions(def.actions), ActionId(target, selector), Zero)
            <==> !NamesAction(def)
  {
    var actions := PolicySync.CompileActions(def.actions);
    if NamesAction(def) {
      var i :| 0 <= i < |def.actions| && def.actions[i] != "*";
      PolicySync.Compiled(PolicySync.CompileAction, def.actions, i);
      if ActionId(target, selector) in actions {
        var j := PolicySync.CompiledFrom(PolicySync.CompileAction, def.actions, ActionId(target, selector));
      }
      if Zero in actions {
        var j := PolicySync.CompiledFrom(PolicySync.CompileAction, def.actions, Zero);
      }
    } else if actions != [] {
      var j := PolicySync.CompiledFrom(PolicySync.CompileAction, def.actions, actions[0]);
    }
  }

  lemma ShutOutIsRefused(def: PolicySync.Definition, c: Account.Config, s: Enforcer.State, block: Block,
                         today: Enforcer.Today, selector: Selector, target: Address, value: Word)
    requires ShutsOut(def, c) || Unquoted(def, s, block)
    ensures Verdict(def, c, s, block, today, selector, target, value) != Ok(true)
  {
    NamedActionsExcludeCalls(def, target, selector);
  }

  lemma FreeIsQuoted(rate: Oracle.Rate)
    requires rate.den > 0
    ensures Oracle.Convert(rate, 0) == Ok(0)
  {
    Arithmetic.QuotientIs(0, rate.den, 0, 0);
  }

  /** Otherwise a call without value to some listed and quoted target, first thing in the day, passes. */
  lemma OpenAcceptsSomeCall(def: PolicySync.Definition, c: Account.Config, s: Enforcer.State, block: Block)
      returns (target: Address)
    requires !ShutsOut(def, c) && !Unquoted(def, s, block)
    ensures Verdict(def, c, s, block, Enforcer.Today(0, 0), ExecuteSelector, target, 0) == Ok(true)
  {
    var tokens := PolicySync.CompileAddresses(def.tokens);
    if Enforcer.Allows(tokens, Null, Null) {
      target := Null;
    } else {
      target :| target in tokens && Enforcer.RateFor(s, block, target).Ok?;
    }
    NamedActionsExcludeCalls(def, target, ExecuteSelector);
    FreeIsQuoted(Enforcer.RateFor(s, block, target).value);
  }

  /** Compiled constraints refuse every account call exactly when the definition names an action, lists
      protocols, lists chains without the account's, or lists only tokens that the oracle cannot quote. */
  lemma RefusesAccountsExactly(def: PolicySync.Definition, c: Account.Config, s: Enforcer.State, block: Block)
    ensures RefusesAccounts(def, c, s, block) <==> ShutsOut(def, c) || Unquoted(def, s, block)
  {
    if ShutsOut(def, c) || Unquoted(def, s, block) {
      forall today, selector, target, value
        ensures Verdict(def, c, s, block, today, selector, target, value) != Ok(true)
      {
        ShutOutIsRefused(def, c, s, block, today, selector, target, value);
      }
    } else {
      var target := OpenAcceptsSomeCall(def, c, s, block);
    }
  }

  /** The compiled list of one nonzero address. */
  lemma OneAddress(text: string)
    requires Hex.WellFormed(text) && Hex.HexToAddress(text) != Null
    ensures var list := PolicySync.CompileAddresses([text]);
            list != [] && forall a :: a in list ==> a == Hex.HexToAddress(text)
  {
    Hex.WellFormedTrimmed(text);
    PolicySync.Compiled(PolicySync.CompileAddress, [text], 0);
    forall a | a in PolicySync.CompileAddresses([text])
      ensures a == Hex.HexToAddress(text)
    {
      var i := PolicySync.CompiledFrom(PolicySync.CompileAddress, [text], a);
    }
  }

  /** A definition of any action on these tokens and protocols, without caps. */
  function AnyActionOn(tokens: seq<string>, protocols: seq<string>): PolicySync.Definition {
    PolicySync.Definition(["*"], tokens, protocols, [], "", "", "", 0, None, None, [])
  }

  /** A definition of wildcards alone but for one protocol shuts out every account. */
  lemma ProtocolListRefusesAccounts(protocol: string, c: Account.Config, s: Enforcer.State, block: Block)
    requires Hex.WellFormed(protocol) && Hex.HexToAddress(protocol) != Null
    ensures RefusesAccounts(AnyActionOn([], [protocol]), c, s, block)
  {
    OneAddress(protocol);
    RefusesAccountsExactly(AnyActionOn([], [protocol]), c, s, block);
  }

  /** So does one of wildcards alone but for one token, under an oracle that has no feed for it. */
  lemma TokenListRefusesAccounts(token: string, c: Account.Config, s: Enforcer.State, block: Block)
    requires Hex.WellFormed(token) && Hex.HexToAddress(token) != Null
    requires s.oracle.Some? && s.oracle.value.FeedOf(Hex.HexToAddress(token)) == Null
    ensures RefusesAccounts(AnyActionOn([token], []), c, s, block)
  {
    OneAddress(token);
    RefusesAccountsExactly(AnyActionOn([token], []), c, s, block);
  }

  /** The hashes differ for every validated definition whatever keccak does on longer texts: a packed
      (target, selector) has 24 bytes, a validated name at most 9. */
  lemma ValidatedNamesAreShort(def: PolicySync.Definition, i: nat)
    requires PolicySync.Validated(def) && i < |def.actions|
    ensures |def.actions[i]| <= 9
  {
    var name := Hex.Lower(def.actions[i]);
    assert name in PolicySync.VALID_ACTIONS;
    assert forall valid :: valid in PolicySync.VALID_ACTIONS ==> |valid| <= 9;
  }

  /** A permission's UUID placed in the low half of a word. */
  function UuidToBytes32(uuid: nat): Bytes32 {
    if uuid == 0 then Zero else Raw(uuid)
  }

  /** Permission ids on chain are hashes, so in every reachable state setting constraints under a UUID reverts. */
  lemma SyncedIdIsRefused(block: Block, owner: Address, steps: seq<Guardrail.Step>,
                          sender: Address, uuid: nat, constraints: Enforcer.Constraints)
    requires sender != Null
    ensures var w := Guardrail.Run(Guardrail.Genesis(block, owner), steps);
            Enforcer.SetConstraints(w.enforcer, w.registry, sender, UuidToBytes32(uuid), constraints)
            == Revert(NotPermissionGrantor)
  {
    Guardrail.ReachableInv(block, owner, steps);
  }

  /** Validation lets through definitions that compile to something looser: one naming a token by ticker. */
  lemma ValidatedMayBeLooser()
    ensures PolicySync.Validated(AnyActionOn(["USDC"], []))
    ensures !PolicyAgreement.PartsNowhereLooser(AnyActionOn(["USDC"], []))
    ensures !PolicyAgreement.NowhereLooser(AnyActionOn(["USDC"], []))
  {
    assert Hex.Lower("*") == "*";
    PolicySync.TickerListIsLooser();
    PolicySync.ListNeverLooser(["USDC"]);
    PolicyAgreement.CompiledPartsNeverLooser(AnyActionOn(["USDC"], []));
    PolicyAgreement.CompiledNeverLooser(AnyActionOn(["USDC"], []));
  }
}
