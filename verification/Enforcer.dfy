/** PermissionEnforcer: constraint checks, the search over an agent's permissions, and the daily usage tracker. */
module Enforcer {
  import opened Evm
  import Arithmetic
  import Identity
  import Oracle
  import Registry

  datatype Constraints = Constraints(
    maxValuePerTx: Word, maxDailyVolume: Word, maxTxCount: Word,
    allowedActions: seq<Bytes32>, allowedTokens: seq<Address>,
    allowedProtocols: seq<Address>, allowedChains: seq<Word>)
  {
    predicate Empty() {
      && maxValuePerTx == 0 && maxDailyVolume == 0 && maxTxCount == 0
      && allowedActions == [] && allowedTokens == [] && allowedProtocols == [] && allowedChains == []
    }
  }

  const NO_CONSTRAINTS := Constraints(0, 0, 0, [], [], [], [])

  datatype Key = Key(agentId: Bytes32, actionHash: Bytes32)
  datatype Tracker = Tracker(dailyVolume: Word, lastReset: Time, txCount: Word)
  const NO_USAGE := Tracker(0, 0, 0)

  /** A UsageRecorded event, stamped with its block's timestamp. */
  datatype Usage = Usage(at: Time, key: Key, value: Word)

  /** What a tracker reports for the current day. */
  datatype Today = Today(volume: nat, count: nat)

  datatype State = State(owner: Address, oracle: Option<Oracle.State>,
                         constraints: map<Bytes32, Constraints>, usage: map<Key, Tracker>, log: seq<Usage>)
  {
    function ConstraintsOf(id: Bytes32): Constraints {
      if id in constraints then constraints[id] else NO_CONSTRAINTS
    }
    function TrackerOf(k: Key): Tracker {
      if k in usage then usage[k] else NO_USAGE
    }
  }

  /** The decoded action data: shorter than 64 bytes, 64 to 127 bytes, or at least 128 bytes. */
  datatype ActionData =
    | Short
    | Legacy(value: Word, token: Address)
    | Extended(value: Word, token: Address, protocol: Address, chainId: Word)

  /** Everything validateAction reads. */
  datatype World = World(block: Block, identity: Identity.State, registry: Registry.State, enforcer: State)

  datatype ValidationResult = ValidationResult(valid: bool, validUntil: Word, permissionId: Bytes32)
  const REFUSED := ValidationResult(false, 0, Zero)

  // ----- the constraint check -----

  /** An empty list means all; the zero element is a wildcard. */
  predicate Allows<T(==)>(list: seq<T>, x: T, any: T) {
    list == [] || x in list || any in list
  }

  /** A zero cap means none. */
  predicate Within(cap: Word, n: nat) {
    cap == 0 || n <= cap
  }

  predicate ListsAllow(c: Constraints, data: ActionData)
    requires !data.Short?
  {
    && Allows(c.allowedTokens, data.token, Null)
    && (data.Extended? ==> Allows(c.allowedProtocols, data.protocol, Null) && Allows(c.allowedChains, data.chainId, 0))
  }

  function Check(c: Constraints, today: Today, eth: Result<Word>, actionHash: Bytes32, data: ActionData): Result<bool> {
    if c.Empty() then Ok(true)
    else if !Allows(c.allowedActions, actionHash, Zero) then Ok(false)
    else if data.Short? then Ok(true)
    else
      var v :- eth;
      if !(Within(c.maxValuePerTx, v) && ListsAllow(c, data)) then Ok(false)
      else if c.maxDailyVolume > 0 && today.volume + v >= UINT256_LIMIT then Revert(Panic)
      else Ok(Within(c.maxDailyVolume, today.volume + v) && (c.maxTxCount == 0 || today.count < c.maxTxCount))
  }

  function RateFor(s: State, block: Block, token: Address): (r: Result<Oracle.Rate>)
    ensures r.Ok? ==> r.value.den > 0
  {
    if s.oracle.None? || token == Null then Ok(Oracle.Rate(1, 1)) else Oracle.RateOf(s.oracle.value, block, token)
  }

  /** The value of an action in wei: as given for ETH or without an oracle, else the oracle's. */
  function EthValue(s: State, block: Block, data: ActionData): Result<Word>
    requires !data.Short?
  {
    var rate :- RateFor(s, block, data.token);
    Oracle.Convert(rate, data.value)
  }

  function GetUsage(s: State, now: Time, k: Key): Today {
    var t := s.TrackerOf(k);
    if now >= t.lastReset + DAY then Today(0, 0) else Today(t.dailyVolume, t.txCount)
  }

  /** Accepted: no constraints at all, or an allowed action whose data, unless it is short, is within every cap
      and in every list. An empty list allows everything and a zero entry is a wildcard; 64-byte data answers to
      the token list, 128-byte data to the protocol and chain lists as well. */
  lemma CheckAcceptsExactly(c: Constraints, today: Today, eth: Result<Word>, actionHash: Bytes32, data: ActionData)
    ensures Check(c, today, eth, actionHash, data) == Ok(true) <==>
            || c == Constraints(0, 0, 0, [], [], [], [])
            || (&& (c.allowedActions == [] || actionHash in c.allowedActions || Zero in c.allowedActions)
                && (data.Short? ||
                    (&& eth.Ok? && (c.maxValuePerTx == 0 || eth.value <= c.maxValuePerTx)
                     && (c.allowedTokens == [] || data.token in c.allowedTokens || Null in c.allowedTokens)
                     && (data.Extended? ==>
                           && (c.allowedProtocols == [] || data.protocol in c.allowedProtocols
                               || Null in c.allowedProtocols)
                           && (c.allowedChains == [] || data.chainId in c.allowedChains || 0 in c.allowedChains))
                     && (c.maxDailyVolume == 0 || today.volume + eth.value <= c.maxDailyVolume)
                     && (c.maxTxCount == 0 || today.count < c.maxTxCount))))
  {
  }

  /** Reverted: an allowed action of full data under some constraint that has no quote, or that gets as far as
      the daily cap with a sum that overflows. */
  lemma CheckRevertsExactly(c: Constraints, today: Today, eth: Result<Word>, actionHash: Bytes32, data: ActionData)
    ensures Check(c, today, eth, actionHash, data).Revert? <==>
            && c != Constraints(0, 0, 0, [], [], [], [])
            && (c.allowedActions == [] || actionHash in c.allowedActions || Zero in c.allowedActions)
            && !data.Short?
            && (eth.Revert? ||
                (&& (c.maxValuePerTx == 0 || eth.value <= c.maxValuePerTx)
                 && (c.allowedTokens == [] || data.token in c.allowedTokens || Null in c.allowedTokens)
                 && (data.Extended? ==>
                       && (c.allowedProtocols == [] || data.protocol in c.allowedProtocols
                           || Null in c.allowedProtocols)
                       && (c.allowedChains == [] || data.chainId in c.allowedChains || 0 in c.allowedChains))
                 && c.maxDailyVolume > 0 && today.volume + eth.value >= UINT256_LIMIT))
  {
  }

  /** Without an oracle, and for ETH, the value is the amount; otherwise it is the oracle's. */
  lemma QuotedBy(s: State, block: Block, data: ActionData)
    requires !data.Short?
    ensures EthValue(s, block, data) ==
            if s.oracle == None || data.token == Null then Ok(data.value)
            else Oracle.EthValue(s.oracle.value, block, data.token, data.value)
  {
    Arithmetic.QuotientIs(data.value, 1, data.value, 0);
  }

  // ----- the search -----

  function Judge(w: World, id: Bytes32, k: Key, data: ActionData): Result<bool> {
    if !Registry.IsValid(w.registry, w.block.now, id) then Ok(false)
    else
      var eth := if data.Short? then Ok(0) else EthValue(w.enforcer, w.block, data);
      Check(w.enforcer.ConstraintsOf(id), GetUsage(w.enforcer, w.block.now, k), eth, k.actionHash, data)
  }

  function Search(w: World, ids: seq<Bytes32>, k: Key, data: ActionData): Result<ValidationResult> {
    if ids == [] then Ok(REFUSED)
    else
      var accepted :- Judge(w, ids[0], k, data);
      if accepted then Ok(ValidationResult(true, w.registry.PermissionOf(ids[0]).validUntil, ids[0]))
      else Search(w, ids[1..], k, data)
  }

  function Validate(w: World, k: Key, data: ActionData): Result<ValidationResult> {
    if !w.identity.IsActive(k.agentId) then Ok(REFUSED)
    else Search(w, w.registry.PermissionsOf(k.agentId), k, data)
  }

  /** The position of the earliest permission that does not simply reject. */
  ghost predicate Earliest(w: World, ids: seq<Bytes32>, i: nat, k: Key, data: ActionData) {
    && i < |ids| && Judge(w, ids[i], k, data) != Ok(false)
    && forall j :: 0 <= j < i ==> Judge(w, ids[j], k, data) == Ok(false)
  }

  lemma {:induction false} SearchFindsEarliest(w: World, ids: seq<Bytes32>, i: nat, k: Key, data: ActionData)
    requires Earliest(w, ids, i, k, data)
    ensures Search(w, ids, k, data) ==
            match Judge(w, ids[i], k, data)
            case Revert(e) => Revert(e)
            case Ok(_) => Ok(ValidationResult(true, w.registry.PermissionOf(ids[i]).validUntil, ids[i]))
  {
    if i > 0 {
      SearchFindsEarliest(w, ids[1..], i - 1, k, data);
    }
  }

  lemma {:induction false} SearchFindsNone(w: World, ids: seq<Bytes32>, k: Key, data: ActionData)
    requires forall j :: 0 <= j < |ids| ==> Judge(w, ids[j], k, data) == Ok(false)
    ensures Search(w, ids, k, data) == Ok(REFUSED)
  {
    if ids != [] {
      SearchFindsNone(w, ids[1..], k, data);
    }
  }

  lemma {:induction false} EarliestExists(w: World, ids: seq<Bytes32>, k: Key, data: ActionData) returns (i: nat)
    requires exists j :: 0 <= j < |ids| && Judge(w, ids[j], k, data) != Ok(false)
    ensures Earliest(w, ids, i, k, data)
  {
    if Judge(w, ids[0], k, data) != Ok(false) {
      i := 0;
    } else {
      var j :| 0 <= j < |ids| && Judge(w, ids[j], k, data) != Ok(false);
      assert ids[1..][j - 1] == ids[j];
      i := EarliestExists(w, ids[1..], k, data);
      i := i + 1;
    }
  }

  /** validateAction against its declarative reading. An action is accepted exactly when the agent is
      active and the earliest permission that does not reject accepts; the result names that permission. */
  lemma ValidateIsEarliest(w: World, k: Key, data: ActionData, result: ValidationResult)
    ensures
      var ids := w.registry.PermissionsOf(k.agentId);
      result.valid && Validate(w, k, data) == Ok(result) <==>
      && w.identity.IsActive(k.agentId)
      && exists i: nat :: Earliest(w, ids, i, k, data) && Judge(w, ids[i], k, data) == Ok(true)
                          && result == ValidationResult(true, w.registry.PermissionOf(ids[i]).validUntil, ids[i])
    ensures
      Validate(w, k, data) == Ok(REFUSED) <==>
      !w.identity.IsActive(k.agentId) ||
      forall id :: id in w.registry.PermissionsOf(k.agentId) ==> Judge(w, id, k, data) == Ok(false)
  {
    var ids := w.registry.PermissionsOf(k.agentId);
    if forall j :: 0 <= j < |ids| ==> Judge(w, ids[j], k, data) == Ok(false) {
      SearchFindsNone(w, ids, k, data);
    } else {
      var i := EarliestExists(w, ids, k, data);
      SearchFindsEarliest(w, ids, i, k, data);
      assert ids[i] in ids;
      forall i': nat | Earliest(w, ids, i', k, data)
        ensures i' == i
      {
      }
    }
  }

  /** The same without the result: some permission decides the search by accepting. */
  lemma AcceptedByEarliest(w: World, k: Key, data: ActionData)
    ensures
      Validate(w, k, data).Ok? && Validate(w, k, data).value.valid <==>
      && w.identity.IsActive(k.agentId)
      && exists i: nat :: Earliest(w, w.registry.PermissionsOf(k.agentId), i, k, data)
                          && Judge(w, w.registry.PermissionsOf(k.agentId)[i], k, data) == Ok(true)
  {
    var ids := w.registry.PermissionsOf(k.agentId);
    if Validate(w, k, data).Ok? {
      ValidateIsEarliest(w, k, data, Validate(w, k, data).value);
    }
    if i: nat :| Earliest(w, ids, i, k, data) && Judge(w, ids[i], k, data) == Ok(true) {
      SearchFindsEarliest(w, ids, i, k, data);
    }
  }

  /** When no listed permission reverts: valid exactly when the agent is active and some listed permission
      is valid and meets every constraint. */
  lemma ValidateIsExistence(w: World, k: Key, data: ActionData)
    requires forall id :: id in w.registry.PermissionsOf(k.agentId) ==> Judge(w, id, k, data).Ok?
    ensures Validate(w, k, data).Ok?
    ensures Validate(w, k, data).value.valid <==>
            w.identity.IsActive(k.agentId) &&
            exists id :: id in w.registry.PermissionsOf(k.agentId) && Judge(w, id, k, data) == Ok(true)
  {
    var ids := w.registry.PermissionsOf(k.agentId);
    if exists j :: 0 <= j < |ids| && Judge(w, ids[j], k, data) != Ok(false) {
      var i := EarliestExists(w, ids, k, data);
      SearchFindsEarliest(w, ids, i, k, data);
      assert ids[i] in ids;
    } else {
      SearchFindsNone(w, ids, k, data);
    }
  }

  // ----- monotonicity -----

  predicate TighterCap(tight: Word, loose: Word) {
    loose == 0 || 0 < tight <= loose
  }

  ghost predicate TighterList<T(!new)>(tight: seq<T>, loose: seq<T>, any: T) {
    loose == [] || any in loose || (tight != [] && any !in tight && forall x :: x in tight ==> x in loose)
  }

  ghost predicate Tighter(tight: Constraints, loose: Constraints) {
    && TighterCap(tight.maxValuePerTx, loose.maxValuePerTx)
    && TighterCap(tight.maxDailyVolume, loose.maxDailyVolume)
    && TighterCap(tight.maxTxCount, loose.maxTxCount)
    && TighterList(tight.allowedActions, loose.allowedActions, Zero)
    && TighterList(tight.allowedTokens, loose.allowedTokens, Null)
    && TighterList(tight.allowedProtocols, loose.allowedProtocols, Null)
    && TighterList(tight.allowedChains, loose.allowedChains, 0)
  }

  /** Tighter constraints or more usage today never turn a rejection into an acceptance. */
  lemma CheckMonotone(tight: Constraints, loose: Constraints, more: Today, less: Today,
                      eth: Result<Word>, actionHash: Bytes32, data: ActionData)
    requires Tighter(tight, loose) && less.volume <= more.volume && less.count <= more.count
    requires Check(tight, more, eth, actionHash, data) == Ok(true)
    ensures Check(loose, less, eth, actionHash, data) != Ok(false)
  {
  }

  /** strict grants no more than lax: every permission of the agent that can count in strict counts in lax,
      under looser constraints, and strict has seen at least as much usage today. */
  ghost predicate Restricts(strict: World, lax: World, k: Key) {
    && strict.block == lax.block && strict.enforcer.oracle == lax.enforcer.oracle
    && (strict.identity.IsActive(k.agentId) ==> lax.identity.IsActive(k.agentId))
    && (forall id ::
          id in strict.registry.PermissionsOf(k.agentId) && Registry.IsValid(strict.registry, strict.block.now, id) ==>
          && id in lax.registry.PermissionsOf(k.agentId) && Registry.IsValid(lax.registry, lax.block.now, id)
          && Tighter(strict.enforcer.ConstraintsOf(id), lax.enforcer.ConstraintsOf(id)))
    && (var more, less := GetUsage(strict.enforcer, strict.block.now, k), GetUsage(lax.enforcer, lax.block.now, k);
        less.volume <= more.volume && less.count <= more.count)
  }

  lemma {:induction false} SearchRefusal(w: World, ids: seq<Bytes32>, k: Key, data: ActionData)
    requires Search(w, ids, k, data).Ok? && !Search(w, ids, k, data).value.valid
    ensures Search(w, ids, k, data) == Ok(REFUSED)
  {
    if ids != [] {
      SearchRefusal(w, ids[1..], k, data);
    }
  }

  /** An action the stricter world accepts is not refused by the laxer one: it is accepted there, or the
      laxer search meets a permission that reverts. */
  lemma ValidateMonotone(strict: World, lax: World, k: Key, data: ActionData)
    requires Restricts(strict, lax, k)
    requires Validate(strict, k, data).Ok? && Validate(strict, k, data).value.valid
    ensures Validate(lax, k, data).Ok? ==> Validate(lax, k, data).value.valid
  {
    var result := Validate(strict, k, data).value;
    ValidateIsEarliest(strict, k, data, result);
    var id := result.permissionId;
    assert id in strict.registry.PermissionsOf(k.agentId) && Judge(strict, id, k, data) == Ok(true);
    assert Judge(lax, id, k, data) != Ok(false) by {
      var eth := if data.Short? then Ok(0) else EthValue(strict.enforcer, strict.block, data);
      CheckMonotone(strict.enforcer.ConstraintsOf(id), lax.enforcer.ConstraintsOf(id),
                    GetUsage(strict.enforcer, strict.block.now, k), GetUsage(lax.enforcer, lax.block.now, k),
                    eth, k.actionHash, data);
    }
    ValidateIsEarliest(lax, k, data, REFUSED);
    if Validate(lax, k, data).Ok? && !Validate(lax, k, data).value.valid {
      SearchRefusal(lax, lax.registry.PermissionsOf(k.agentId), k, data);
      assert false;
    }
  }

  /** Nothing reverts for a quoted token while no sum can overflow. */
  lemma QuotedNeverReverts(w: World, id: Bytes32, k: Key, data: ActionData)
    requires !data.Short? ==>
               && EthValue(w.enforcer, w.block, data).Ok?
               && GetUsage(w.enforcer, w.block.now, k).volume + EthValue(w.enforcer, w.block, data).value
                  < UINT256_LIMIT
    ensures Judge(w, id, k, data).Ok?
  {
  }

  /** So for a quoted token and sums that fit, acceptance carries over outright. */
  lemma ValidateMonotoneQuoted(strict: World, lax: World, k: Key, data: ActionData)
    requires Restricts(strict, lax, k)
    requires Validate(strict, k, data).Ok? && Validate(strict, k, data).value.valid
    requires !data.Short? ==>
               && EthValue(lax.enforcer, lax.block, data).Ok?
               && GetUsage(lax.enforcer, lax.block.now, k).volume + EthValue(lax.enforcer, lax.block, data).value
                  < UINT256_LIMIT
    ensures Validate(lax, k, data).Ok? && Validate(lax, k, data).value.valid
  {
    forall id | id in lax.registry.PermissionsOf(k.agentId)
      ensures Judge(lax, id, k, data).Ok?
    {
      QuotedNeverReverts(lax, id, k, data);
    }
    ValidateIsExistence(lax, k, data);
    ValidateMonotone(strict, lax, k, data);
  }

  // ----- state changes -----

  function RecordUsage(s: State, now: Time, k: Key, value: Word): Result<State> {
    var t := s.TrackerOf(k);
    var base := if now >= t.lastReset + DAY then Tracker(0, now - now % DAY, 0) else t;
    var volume :- Checked(base.dailyVolume + value);
    var count :- Checked(base.txCount + 1);
    Ok(s.(usage := s.usage[k := Tracker(volume, base.lastReset, count)], log := s.log + [Usage(now, k, value)]))
  }

  function SetConstraints(s: State, registry: Registry.State, sender: Address,
                          id: Bytes32, c: Constraints): Result<State> {
    if registry.PermissionOf(id).grantor != sender then Revert(NotPermissionGrantor)
    else Ok(s.(constraints := s.constraints[id := c]))
  }

  function SetPriceOracle(s: State, sender: Address, oracle: Option<Oracle.State>): Result<State> {
    if sender != s.owner then Revert(NotOwner) else Ok(s.(oracle := oracle))
  }

  /** Only the grantor of a permission replaces its constraints, leaving everything else as it was. */
  lemma ConstraintsChangeExactly(s: State, registry: Registry.State, sender: Address, id: Bytes32, c: Constraints,
                                 x: Bytes32)
    ensures var r := SetConstraints(s, registry, sender, id, c);
            && (r.Ok? <==> registry.PermissionOf(id).grantor == sender)
            && (r.Revert? ==> r.error == NotPermissionGrantor)
            && (r.Ok? ==>
                  && r.value.ConstraintsOf(x) == (if x == id then c else s.ConstraintsOf(x))
                  && r.value.usage == s.usage && r.value.log == s.log
                  && r.value.oracle == s.oracle && r.value.owner == s.owner)
  {
  }

  /** Only the owner rewires the oracle, leaving everything else as it was. */
  lemma OracleChangesExactly(s: State, sender: Address, oracle: Option<Oracle.State>)
    ensures var r := SetPriceOracle(s, sender, oracle);
            && (r.Ok? <==> sender == s.owner) && (r.Revert? ==> r.error == NotOwner)
            && (r.Ok? ==>
                  && r.value.oracle == oracle && r.value.owner == s.owner && r.value.constraints == s.constraints
                  && r.value.usage == s.usage && r.value.log == s.log)
  {
  }

  // ----- the tracker against the recorded history -----

  predicate On(e: Usage, k: Key, day: nat) {
    e.key == k && e.at / DAY == day
  }

  /** The sum of the values recorded under k on a UTC day. */
  function Volume(log: seq<Usage>, k: Key, day: nat): nat {
    if log == [] then 0
    else Volume(log[..|log| - 1], k, day) + if On(log[|log| - 1], k, day) then log[|log| - 1].value else 0
  }

  /** How many values were recorded under k on a UTC day. */
  function Count(log: seq<Usage>, k: Key, day: nat): nat {
    if log == [] then 0
    else Count(log[..|log| - 1], k, day) + if On(log[|log| - 1], k, day) then 1 else 0
  }

  ghost predicate NoneSince(log: seq<Usage>, k: Key, day: nat) {
    forall e :: e in log && e.key == k ==> e.at / DAY < day
  }

  /** A tracker was reset at the midnight of the day it counts, counts that day's history,
      and nothing was recorded under its key on a later day. */
  ghost predicate KeyExact(s: State, k: Key) {
    var t := s.TrackerOf(k);
    && t.lastReset % DAY == 0
    && t.dailyVolume == Volume(s.log, k, t.lastReset / DAY)
    && t.txCount == Count(s.log, k, t.lastReset / DAY)
    && NoneSince(s.log, k, t.lastReset / DAY + 1)
  }

  ghost predicate TrackersExact(s: State, now: Time) {
    && (forall k :: KeyExact(s, k) && s.TrackerOf(k).lastReset <= now)
    && (forall e :: e in s.log ==> e.at <= now)
  }

  lemma {:induction false} NothingOnUnusedDay(log: seq<Usage>, k: Key, day: nat)
    requires NoneSince(log, k, day)
    ensures Volume(log, k, day) == 0 && Count(log, k, day) == 0
  {
    if log != [] {
      assert log[|log| - 1] in log;
      NothingOnUnusedDay(log[..|log| - 1], k, day);
    }
  }

  lemma LogAppend(log: seq<Usage>, e: Usage, k: Key, day: nat)
    ensures Volume(log + [e], k, day) == Volume(log, k, day) + if On(e, k, day) then e.value else 0
    ensures Count(log + [e], k, day) == Count(log, k, day) + if On(e, k, day) then 1 else 0
  {
    assert (log + [e])[..|log|] == log;
  }

  /** At any time from now on, getUsage is exactly what was recorded on the UTC day of that time. */
  lemma UsageIsHistory(s: State, now: Time, later: Time, k: Key)
    requires TrackersExact(s, now) && now <= later
    ensures GetUsage(s, later, k) == Today(Volume(s.log, k, later / DAY), Count(s.log, k, later / DAY))
  {
    var t := s.TrackerOf(k);
    assert KeyExact(s, k) && t.lastReset <= now;
    if later >= t.lastReset + DAY {
      NothingOnUnusedDay(s.log, k, later / DAY);
    } else {
      assert later / DAY == t.lastReset / DAY;
    }
  }

  lemma RecordKeepsOwnKey(s: State, now: Time, k: Key, value: Word)
    requires TrackersExact(s, now) && RecordUsage(s, now, k, value).Ok?
    ensures KeyExact(RecordUsage(s, now, k, value).value, k)
    ensures RecordUsage(s, now, k, value).value.TrackerOf(k).lastReset <= now
  {
    var s' := RecordUsage(s, now, k, value).value;
    var t' := s'.TrackerOf(k);
    assert KeyExact(s, k) && s.TrackerOf(k).lastReset <= now;
    assert t'.lastReset / DAY == now / DAY;
    LogAppend(s.log, Usage(now, k, value), k, now / DAY);
    UsageIsHistory(s, now, now, k);
  }

  lemma RecordKeepsOtherKey(s: State, now: Time, k: Key, value: Word, other: Key)
    requires TrackersExact(s, now) && RecordUsage(s, now, k, value).Ok? && other != k
    ensures KeyExact(RecordUsage(s, now, k, value).value, other)
    ensures RecordUsage(s, now, k, value).value.TrackerOf(other).lastReset <= now
  {
    assert KeyExact(s, other) && s.TrackerOf(other).lastReset <= now;
    LogAppend(s.log, Usage(now, k, value), other, s.TrackerOf(other).lastReset / DAY);
  }

  lemma RecordKeepsTrackers(s: State, now: Time, k: Key, value: Word)
    requires TrackersExact(s, now) && RecordUsage(s, now, k, value).Ok?
    ensures TrackersExact(RecordUsage(s, now, k, value).value, now)
  {
    RecordKeepsOwnKey(s, now, k, value);
    forall other | other != k {
      RecordKeepsOtherKey(s, now, k, value, other);
    }
  }

  /** Recording succeeds exactly when today's sums fit, appends one event and touches no other key. */
  lemma RecordsExactly(s: State, now: Time, k: Key, value: Word, other: Key, at: Time)
    ensures var today, r := GetUsage(s, now, k), RecordUsage(s, now, k, value);
            && (r.Ok? <==> today.volume + value < UINT256_LIMIT && today.count + 1 < UINT256_LIMIT)
            && (r.Ok? ==>
                  && GetUsage(r.value, now, k) == Today(today.volume + value, today.count + 1)
                  && (other != k ==> GetUsage(r.value, at, other) == GetUsage(s, at, other))
                  && r.value.log == s.log + [Usage(now, k, value)]
                  && r.value.constraints == s.constraints && r.value.owner == s.owner && r.value.oracle == s.oracle)
  {
  }

  // ----- quotas -----

  function Remaining(cap: nat, used: nat): nat {
    if cap > used then cap - used else 0
  }

  function GetRemainingQuota(s: State, now: Time, id: Bytes32, k: Key): Today {
    var c, today := s.ConstraintsOf(id), GetUsage(s, now, k);
    Today(Remaining(c.maxDailyVolume, today.volume), Remaining(c.maxTxCount, today.count))
  }

  /** With both caps set, an action that passes the other constraints passes the caps exactly when its
      value is at most the remaining volume, a transaction remains, and the day is not already over its cap. */
  lemma QuotaPredictsCheck(s: State, now: Time, id: Bytes32, k: Key, v: Word, data: ActionData)
    requires !data.Short?
    requires var c := s.ConstraintsOf(id);
             && c.maxDailyVolume > 0 && c.maxTxCount > 0
             && Allows(c.allowedActions, k.actionHash, Zero) && Within(c.maxValuePerTx, v) && ListsAllow(c, data)
    ensures var c, today, quota := s.ConstraintsOf(id), GetUsage(s, now, k), GetRemainingQuota(s, now, id, k);
            Check(c, today, Ok(v), k.actionHash, data) == Ok(true) <==>
            v <= quota.volume && quota.count > 0 && today.volume <= c.maxDailyVolume
  {
  }
}
