/** Whole definitions against the constraints they compile to: exactly when neither is looser than the other. */
module PolicyAgreement {
  import opened Conditions
  import opened Decimal
  import opened Evm
  import opened Hex
  import opened PolicySync
  import Enforcer

  /** The 128-byte action data an action is sent with; absent fields may carry anything. */
  predicate Encodes(action: Action, hash: Bytes32, data: Enforcer.ActionData) {
    && hash == ActionHash(action.kind)
    && data.Extended?
    && (action.token != "" ==> WellFormed(action.token) && data.token == HexToAddress(action.token))
    && (action.protocol != "" ==> WellFormed(action.protocol) && data.protocol == HexToAddress(action.protocol))
    && (action.amount != "" ==> ParseInt(action.amount) == Some(data.value))
    && (action.chain != 0 ==> data.chainId == AbiUint(action.chain))
  }

  /** No field of the action is absent. */
  predicate Complete(action: Action) {
    action.token != "" && action.protocol != "" && action.amount != "" && action.chain != 0
  }

  /** The enforcer, without an oracle, accepts under the compiled constraints. */
  predicate Accepts(def: Definition, today: Enforcer.Today, hash: Bytes32, data: Enforcer.ActionData)
    requires data.Extended?
  {
    Enforcer.Check(OnChain(Build(def)), today, Ok(data.value), hash, data) == Ok(true)
  }

  /** Today's counters are words. */
  predicate Stored(today: Enforcer.Today) {
    today.volume < UINT256_LIMIT && today.count < UINT256_LIMIT
  }

  /** Whatever the enforcer accepts the engine permits: for any usage today, the same for both, and whatever
      the conditions evaluate to. */
  ghost predicate NowhereLooser(def: Definition) {
    forall action, today, hash, data, holds ::
      Encodes(action, hash, data) && Stored(today) && Accepts(def, today, hash, data) ==>
        Permits(def, action, today.volume, holds)
  }

  /** On every complete action the two agree, again for any usage and evaluation. */
  ghost predicate Agrees(def: Definition) {
    forall action, today, hash, data, holds ::
      Encodes(action, hash, data) && Complete(action) && Stored(today) ==>
        (Accepts(def, today, hash, data) <==> Permits(def, action, today.volume, holds))
  }

  /** The same of the checks both sides make: action, token, protocol, chain and per-transaction cap. */
  ghost predicate PartsNowhereLooser(def: Definition) {
    forall action, today, hash, data ::
      Encodes(action, hash, data) && Stored(today) && Accepts(def, today, hash, data) ==> Matches(def, action)
  }

  ghost predicate PartsAgree(def: Definition) {
    forall action, today, hash, data ::
      Encodes(action, hash, data) && Complete(action) && Stored(today) ==>
        (Accepts(def, today, hash, data) <==> Matches(def, action))
  }

  /** Lists of a length a slice can have. */
  predicate Bounded(def: Definition) {
    |def.tokens| < ADDRESS_LIMIT && |def.protocols| < ADDRESS_LIMIT && |def.chains| < MAX_INT64
  }

  function PackedValueCap(def: Definition): Word {
    AbiUint(WeiFromString(def.maxValuePerTx))
  }

  function PackedVolumeCap(def: Definition): Word {
    AbiUint(WeiFromString(def.maxDailyVolume))
  }

  /** An absent or positive daily cap; 2^256 packs to none and is no looser only if no transaction exceeds one wei. */
  predicate SafeVolume(def: Definition) {
    && PositiveCap(def.maxDailyVolume)
    && (WeiFromString(def.maxDailyVolume) == UINT256_LIMIT ==> PackedValueCap(def) == 1)
  }

  /** A per-transaction cap that survives packing, or that only binds where the daily cap does. */
  predicate FullValue(def: Definition) {
    || PackedCap(def.maxValuePerTx)
    || (def.maxDailyVolume != "" && WeiFromString(def.maxDailyVolume) <= PackedValueCap(def))
  }

  /** A daily cap that fits, or is above every sum and packs to none. */
  predicate FullVolume(def: Definition) {
    WeiFromString(def.maxDailyVolume) < UINT256_LIMIT || PackedVolumeCap(def) == 0
  }

  /** The parts that both sides check come out no looser. */
  predicate SafeParts(def: Definition) {
    && def.actions != []
    && SafeList(def.tokens) && SafeList(def.protocols)
    && 0 !in def.chains
    && PositiveCap(def.maxValuePerTx)
  }

  predicate FullLists(def: Definition) {
    Unmixed(def.actions) && FullList(def.tokens) && FullList(def.protocols)
  }

  /** The shared parts come out no tighter either, and neither a daily cap nor a count cap is set on chain. */
  predicate ExactParts(def: Definition) {
    && SafeParts(def) && FullLists(def)
    && PackedCap(def.maxValuePerTx) && PackedVolumeCap(def) == 0 && def.maxTxCount == 0
  }

  /** Everything comes out no looser. Conditions are not compiled, so there must be none. */
  predicate Safe(def: Definition) {
    SafeParts(def) && SafeVolume(def) && def.conditions == []
  }

  /** Everything comes out no tighter either. The engine counts no transactions, so there is no count cap. */
  predicate Exact(def: Definition) {
    Safe(def) && FullLists(def) && FullValue(def) && FullVolume(def) && def.maxTxCount == 0
  }

  // ----- the check in terms of its parts -----

  /** The action, the lists and the per-transaction cap let the action through. */
  predicate PartsAllow(def: Definition, hash: Bytes32, data: Enforcer.ActionData)
    requires data.Extended?
  {
    && Enforcer.Allows(CompileActions(def.actions), hash, Zero)
    && Enforcer.Allows(CompileAddresses(def.tokens), data.token, Null)
    && Enforcer.Allows(CompileAddresses(def.protocols), data.protocol, Null)
    && Enforcer.Allows(AbiUints(def.chains), data.chainId, 0)
    && Enforcer.Within(PackedValueCap(def), data.value)
  }

  lemma AcceptedPasses(def: Definition, today: Enforcer.Today, hash: Bytes32, data: Enforcer.ActionData)
    requires data.Extended? && Accepts(def, today, hash, data)
    ensures PartsAllow(def, hash, data) && Enforcer.Within(PackedVolumeCap(def), today.volume + data.value)
  {
  }

  /** Beyond the parts only the daily volume and the count can stand in the way. */
  lemma PartsPass(def: Definition, today: Enforcer.Today, hash: Bytes32, data: Enforcer.ActionData)
    requires data.Extended? && PartsAllow(def, hash, data)
    requires Enforcer.Within(PackedVolumeCap(def), today.volume + data.value)
    requires today.count == 0 || def.maxTxCount == 0
    ensures Accepts(def, today, hash, data)
  {
  }

  /** A count cap as stored: a negative one wraps. */
  function PackedCount(def: Definition): nat {
    if def.maxTxCount >= 0 then def.maxTxCount else UINT256_LIMIT + def.maxTxCount
  }

  /** The enforcer accepts exactly when the parts allow the action, and the day's volume and count stay within
      the definition's caps as stored. */
  lemma AcceptsExactly(def: Definition, today: Enforcer.Today, hash: Bytes32, data: Enforcer.ActionData)
    requires data.Extended?
    ensures Accepts(def, today, hash, data) <==>
            && PartsAllow(def, hash, data)
            && (PackedVolumeCap(def) == 0 || today.volume + data.value <= PackedVolumeCap(def))
            && (def.maxTxCount == 0 || today.count < PackedCount(def))
  {
  }

  /** A count cap is used up by some usage. */
  lemma CountRefuses(def: Definition, hash: Bytes32, data: Enforcer.ActionData) returns (today: Enforcer.Today)
    requires data.Extended? && def.maxTxCount != 0
    ensures today.volume == 0 && Stored(today) && !Accepts(def, today, hash, data)
  {
    today := Enforcer.Today(0, AbiUint(def.maxTxCount));
  }

  // ----- one part at a time -----

  lemma ListKept(list: seq<string>, text: string)
    requires WellFormed(text) && |list| < ADDRESS_LIMIT
    ensures SafeList(list) && Enforcer.Allows(CompileAddresses(list), HexToAddress(text), Null) ==> Lists(list, text)
    ensures FullList(list) && Lists(list, text) ==> Enforcer.Allows(CompileAddresses(list), HexToAddress(text), Null)
  {
    ListNeverLooser(list);
    ListNeverTighter(list);
  }

  lemma ChainKept(chains: seq<Int64>, chain: Int64, chainId: Word)
    requires chain != 0 ==> chainId == AbiUint(chain)
    ensures 0 !in chains && Enforcer.Allows(AbiUints(chains), chainId, 0) ==> ChainMatches(chains, chain)
    ensures chain != 0 && ChainMatches(chains, chain) ==> Enforcer.Allows(AbiUints(chains), chainId, 0)
  {
    PackedChain(chains, chain);
  }

  lemma AmountKept(cap: string, amount: string, value: Word)
    requires PositiveCap(cap)
    requires amount != "" ==> ParseInt(amount) == Some(value)
    ensures Enforcer.Within(AbiUint(WeiFromString(cap)), value) ==> AmountMatches(cap, amount)
    ensures amount != "" && AmountMatches(cap, amount) && PackedCap(cap)
            ==> Enforcer.Within(AbiUint(WeiFromString(cap)), value)
  {
    CapNeverLooser(cap);
    CapNeverTighter(cap);
    assert amount != "" ==> (AmountMatches(cap, amount) <==> WithinCap(cap, value));
  }

  lemma VolumeKept(def: Definition, amount: string, value: Word, used: Word)
    requires SafeVolume(def)
    requires amount != "" ==> ParseInt(amount) == Some(value)
    ensures Enforcer.Within(PackedValueCap(def), value) && Enforcer.Within(PackedVolumeCap(def), used + value)
            ==> VolumeMatches(def.maxDailyVolume, amount, used)
    ensures amount != "" && VolumeMatches(def.maxDailyVolume, amount, used) && FullVolume(def)
            ==> Enforcer.Within(PackedVolumeCap(def), used + value)
  {
  }

  /** A definition of safe parts matches whatever its compiled parts allow. */
  lemma SafeMatches(def: Definition, action: Action, hash: Bytes32, data: Enforcer.ActionData)
    requires Bounded(def) && SafeParts(def) && Encodes(action, hash, data) && PartsAllow(def, hash, data)
    ensures Matches(def, action)
  {
    ActionsNeverLooser(def.actions);
    if action.token != "" { ListKept(def.tokens, action.token); }
    if action.protocol != "" { ListKept(def.protocols, action.protocol); }
    ChainKept(def.chains, action.chain, data.chainId);
    AmountKept(def.maxValuePerTx, action.amount, data.value);
  }

  /** With full lists the parts allow whatever complete action is matched, if the per-transaction cap
      survives packing or the amount is within what it packs to. */
  lemma FullAllows(def: Definition, action: Action, hash: Bytes32, data: Enforcer.ActionData)
    requires Bounded(def) && SafeParts(def) && FullLists(def)
    requires Complete(action) && Encodes(action, hash, data) && Matches(def, action)
    requires PackedCap(def.maxValuePerTx) || data.value <= PackedValueCap(def)
    ensures PartsAllow(def, hash, data)
  {
    UnmixedKeeps(def.actions, action.kind);
    ListKept(def.tokens, action.token);
    ListKept(def.protocols, action.protocol);
    ChainKept(def.chains, action.chain, data.chainId);
    AmountKept(def.maxValuePerTx, action.amount, data.value);
  }

  // ----- an action the compiled parts allow -----

  lemma SomeKind(list: seq<string>) returns (kind: string)
    ensures Enforcer.Allows(CompileActions(list), ActionHash(kind), Zero)
  {
    kind := "";
    if CompileActions(list) != [] {
      var i := CompiledFrom(CompileAction, list, CompileActions(list)[0]);
      kind := list[i];
    }
  }

  lemma SomeText(list: seq<string>) returns (text: string)
    ensures WellFormed(text) && Enforcer.Allows(CompileAddresses(list), HexToAddress(text), Null)
  {
    if CompileAddresses(list) == [] {
      text := TextOf(0);
    } else {
      text := TextOfCompiled(list, CompileAddresses(list)[0]);
    }
  }

  lemma SomeChain(chains: seq<Int64>) returns (chain: Int64)
    ensures chain != 0 && Enforcer.Allows(AbiUints(chains), AbiUint(chain), 0)
  {
    chain := 1;
    if exists i :: 0 <= i < |chains| && chains[i] != 0 {
      var i :| 0 <= i < |chains| && chains[i] != 0;
      chain := chains[i];
    } else if chains != [] {
      assert chains[0] in chains;
    }
    PackedChain(chains, chain);
  }

  /** The data of a complete action with this amount. */
  function DataOf(action: Action, value: Word): Enforcer.ActionData {
    Enforcer.Extended(value, HexToAddress(action.token), HexToAddress(action.protocol), AbiUint(action.chain))
  }

  /** A complete action of this amount that the compiled parts allow. */
  lemma SomeAction(def: Definition, value: Word) returns (action: Action)
    requires Enforcer.Within(PackedValueCap(def), value)
    ensures Complete(action) && action.amount == Print(value) && ParseInt(action.amount) == Some(value)
    ensures Encodes(action, ActionHash(action.kind), DataOf(action, value))
    ensures PartsAllow(def, ActionHash(action.kind), DataOf(action, value))
  {
    var kind := SomeKind(def.actions);
    var token := SomeText(def.tokens);
    var protocol := SomeText(def.protocols);
    var chain := SomeChain(def.chains);
    PrintParses(value);
    action := Action(kind, token, protocol, Print(value), chain, "", map[]);
  }

  /** An address that an unsafe list does not list and its compiled form allows. */
  lemma UnsafeListGains(list: seq<string>) returns (text: string)
    requires |list| < ADDRESS_LIMIT && !SafeList(list)
    ensures WellFormed(text) && Enforcer.Allows(CompileAddresses(list), HexToAddress(text), Null) && !Lists(list, text)
  {
    ListNeverLooser(list);
    text :|
      WellFormed(text) && Enforcer.Allows(CompileAddresses(list), HexToAddress(text), Null) && !Lists(list, text);
  }

  /** An address that a list lists and its compiled form, not being full, refuses. */
  lemma PartialListLoses(list: seq<string>) returns (text: string)
    requires |list| < ADDRESS_LIMIT && !FullList(list)
    ensures WellFormed(text) && Lists(list, text) && !Enforcer.Allows(CompileAddresses(list), HexToAddress(text), Null)
  {
    ListNeverTighter(list);
    text :|
      WellFormed(text) && Lists(list, text) && !Enforcer.Allows(CompileAddresses(list), HexToAddress(text), Null);
  }

  // ----- looser -----

  /** A part that is not safe shows up as an accepted action that the definition does not match. */
  lemma UnsafePartShows(def: Definition) returns (action: Action, value: Word)
    requires Bounded(def) && !SafeParts(def)
    ensures Complete(action) && value <= 1 && Encodes(action, ActionHash(action.kind), DataOf(action, value))
    ensures PartsAllow(def, ActionHash(action.kind), DataOf(action, value)) && !Matches(def, action)
  {
    value := if def.maxValuePerTx != "" && WeiFromString(def.maxValuePerTx) == 0 then 1 else 0;
    action := SomeAction(def, value);
    if def.actions == [] {
    } else if !SafeList(def.tokens) {
      var text := UnsafeListGains(def.tokens);
      action := action.(token := text);
    } else if !SafeList(def.protocols) {
      var text := UnsafeListGains(def.protocols);
      action := action.(protocol := text);
    } else if 0 in def.chains {
      ChainsNeverLooser(def.chains);
      var chain: Int64 :| Enforcer.Allows(AbiUints(def.chains), AbiUint(chain), 0) && !ChainMatches(def.chains, chain);
      action := action.(chain := chain);
    }
  }

  /** A usage and an amount that go over an unsafe daily cap while the packed caps let them through. */
  lemma OverVolume(def: Definition) returns (used: Word, value: Word)
    requires !SafeVolume(def)
    ensures Enforcer.Within(PackedValueCap(def), value) && Enforcer.Within(PackedVolumeCap(def), used + value)
    ensures !WithinCap(def.maxDailyVolume, used + value)
  {
    var cap := WeiFromString(def.maxDailyVolume);
    used := if cap > 0 then UINT256_LIMIT - 1 else 0;
    value := if cap < 0 then 0 else if cap == 0 then 1 else 2;
  }

  /** A daily cap that is not safe shows up as an accepted action that takes the day over the cap. */
  lemma UnsafeVolumeShows(def: Definition) returns (action: Action, value: Word, today: Enforcer.Today)
    requires !SafeVolume(def)
    ensures Complete(action) && Encodes(action, ActionHash(action.kind), DataOf(action, value))
    ensures Stored(today) && Accepts(def, today, ActionHash(action.kind), DataOf(action, value))
    ensures !VolumeMatches(def.maxDailyVolume, action.amount, today.volume)
  {
    var used: Word;
    used, value := OverVolume(def);
    today := Enforcer.Today(used, 0);
    action := SomeAction(def, value);
    PartsPass(def, today, ActionHash(action.kind), DataOf(action, value));
  }

  /** The checks both sides make are nowhere looser on chain exactly when their parts are safe, whatever the
      conditions and the daily cap. */
  lemma CompiledPartsNeverLooser(def: Definition)
    requires Bounded(def)
    ensures PartsNowhereLooser(def) <==> SafeParts(def)
  {
    if SafeParts(def) {
      forall action, today, hash, data
        | Encodes(action, hash, data) && Stored(today) && Accepts(def, today, hash, data)
        ensures Matches(def, action)
      {
        AcceptedPasses(def, today, hash, data);
        SafeMatches(def, action, hash, data);
      }
    } else {
      var action, value := UnsafePartShows(def);
      PartsPass(def, Enforcer.Today(0, 0), ActionHash(action.kind), DataOf(action, value));
    }
  }

  /** Whatever is not safe shows up as an accepted action that the engine refuses. */
  lemma UnsafeShows(def: Definition) returns (action: Action, value: Word, today: Enforcer.Today)
    requires Bounded(def) && !Safe(def)
    ensures Complete(action) && Encodes(action, ActionHash(action.kind), DataOf(action, value))
    ensures Stored(today) && Accepts(def, today, ActionHash(action.kind), DataOf(action, value))
    ensures !Permits(def, action, today.volume, c => false)
  {
    if !SafeVolume(def) {
      action, value, today := UnsafeVolumeShows(def);
    } else {
      today := Enforcer.Today(0, 0);
      if def.conditions != [] {
        value := 0;
        action := SomeAction(def, value);
        assert !(c => false)(def.conditions[0]);
      } else {
        action, value := UnsafePartShows(def);
      }
      PartsPass(def, today, ActionHash(action.kind), DataOf(action, value));
    }
  }

  lemma SafePermits(def: Definition, action: Action, today: Enforcer.Today, hash: Bytes32, data: Enforcer.ActionData,
                    holds: Condition -> bool)
    requires Bounded(def) && Safe(def)
    requires Stored(today) && Encodes(action, hash, data) && Accepts(def, today, hash, data)
    ensures Permits(def, action, today.volume, holds)
  {
    AcceptedPasses(def, today, hash, data);
    SafeMatches(def, action, hash, data);
    VolumeKept(def, action.amount, data.value, today.volume);
  }

  /** Compiled constraints are nowhere looser than the definition exactly when every part is safe. */
  lemma CompiledNeverLooser(def: Definition)
    requires Bounded(def)
    ensures NowhereLooser(def) <==> Safe(def)
  {
    if Safe(def) {
      forall action, today, hash, data, holds
        | Encodes(action, hash, data) && Stored(today) && Accepts(def, today, hash, data)
        ensures Permits(def, action, today.volume, holds)
      {
        SafePermits(def, action, today, hash, data, holds);
      }
    } else {
      var action, value, today := UnsafeShows(def);
    }
  }

  // ----- tighter -----

  /** With safe parts, a list that is not full or a cap cut by packing shows up as a complete action that
      the definition matches and its compiled parts refuse; for a cap, with the least amount cut off. */
  lemma InexactPartShows(def: Definition) returns (action: Action, value: Word)
    requires Bounded(def) && SafeParts(def) && !(FullLists(def) && PackedCap(def.maxValuePerTx))
    ensures Complete(action) && Encodes(action, ActionHash(action.kind), DataOf(action, value)) && Matches(def, action)
    ensures value == if FullLists(def) then PackedValueCap(def) + 1 else 0
    ensures !PartsAllow(def, ActionHash(action.kind), DataOf(action, value))
  {
    value := 0;
    action := SomeAction(def, value);
    SafeMatches(def, action, ActionHash(action.kind), DataOf(action, 0));
    if !Unmixed(def.actions) {
      var kind := MixedLoses(def.actions);
      action := action.(kind := kind);
    } else if !FullList(def.tokens) {
      var text := PartialListLoses(def.tokens);
      action := action.(token := text);
    } else if !FullList(def.protocols) {
      var text := PartialListLoses(def.protocols);
      action := action.(protocol := text);
    } else {
      value := PackedValueCap(def) + 1;
      PrintParses(value);
      action := action.(amount := Print(value));
    }
  }

  /** A count cap, or a daily cap that packs to some cap, refuses an action of at most 1 wei on some usage. */
  lemma CappedShows(def: Definition) returns (action: Action, value: Word, today: Enforcer.Today)
    requires Bounded(def) && SafeParts(def) && !(PackedVolumeCap(def) == 0 && def.maxTxCount == 0)
    ensures Complete(action) && Encodes(action, ActionHash(action.kind), DataOf(action, value)) && Matches(def, action)
    ensures today.volume + value == if def.maxTxCount != 0 then 0 else PackedVolumeCap(def) + 1
    ensures Stored(today) && !Accepts(def, today, ActionHash(action.kind), DataOf(action, value))
  {
    action := SomeAction(def, 0);
    SafeMatches(def, action, ActionHash(action.kind), DataOf(action, 0));
    if def.maxTxCount != 0 {
      value := 0;
      today := CountRefuses(def, ActionHash(action.kind), DataOf(action, 0));
    } else {
      value, today := 1, Enforcer.Today(PackedVolumeCap(def), 0);
      PrintParses(1);
      action := action.(amount := Print(1));
      if Accepts(def, today, ActionHash(action.kind), DataOf(action, 1)) {
        AcceptedPasses(def, today, ActionHash(action.kind), DataOf(action, 1));
      }
    }
  }

  /** With safe parts, whatever is not exact shows up as a matched action that some usage sees refused. */
  lemma InexactPartsShow(def: Definition) returns (action: Action, value: Word, today: Enforcer.Today)
    requires Bounded(def) && SafeParts(def) && !ExactParts(def)
    ensures Complete(action) && Encodes(action, ActionHash(action.kind), DataOf(action, value)) && Matches(def, action)
    ensures Stored(today) && !Accepts(def, today, ActionHash(action.kind), DataOf(action, value))
  {
    if PackedVolumeCap(def) == 0 && def.maxTxCount == 0 {
      today := Enforcer.Today(0, 0);
      action, value := InexactPartShows(def);
      if Accepts(def, today, ActionHash(action.kind), DataOf(action, value)) {
        AcceptedPasses(def, today, ActionHash(action.kind), DataOf(action, value));
      }
    } else {
      action, value, today := CappedShows(def);
    }
  }

  /** On the checks both sides make, the two agree on every complete action exactly when the parts are exact. */
  lemma CompiledPartsAgree(def: Definition)
    requires Bounded(def)
    ensures PartsAgree(def) <==> ExactParts(def)
  {
    if ExactParts(def) {
      forall action, today, hash, data
        | Encodes(action, hash, data) && Complete(action) && Stored(today)
        ensures Accepts(def, today, hash, data) <==> Matches(def, action)
      {
        if Accepts(def, today, hash, data) {
          AcceptedPasses(def, today, hash, data);
          SafeMatches(def, action, hash, data);
        } else if Matches(def, action) {
          FullAllows(def, action, hash, data);
          PartsPass(def, today, hash, data);
        }
      }
    } else if SafeParts(def) {
      var action, value, today := InexactPartsShow(def);
    } else {
      var action, value := UnsafePartShows(def);
      PartsPass(def, Enforcer.Today(0, 0), ActionHash(action.kind), DataOf(action, value));
    }
  }

  /** In a safe definition whatever is not exact shows up as a permitted action that some usage sees refused. */
  lemma InexactShows(def: Definition) returns (action: Action, value: Word, today: Enforcer.Today)
    requires Bounded(def) && Safe(def) && !Exact(def)
    ensures Complete(action) && Encodes(action, ActionHash(action.kind), DataOf(action, value))
    ensures Permits(def, action, today.volume, c => true)
    ensures Stored(today) && !Accepts(def, today, ActionHash(action.kind), DataOf(action, value))
  {
    if FullVolume(def) && def.maxTxCount == 0 {
      today := Enforcer.Today(0, 0);
      action, value := InexactPartShows(def);
      if Accepts(def, today, ActionHash(action.kind), DataOf(action, value)) {
        AcceptedPasses(def, today, ActionHash(action.kind), DataOf(action, value));
      }
    } else {
      action, value, today := CappedShows(def);
    }
  }

  lemma ExactAgrees(def: Definition, action: Action, today: Enforcer.Today, hash: Bytes32, data: Enforcer.ActionData,
                    holds: Condition -> bool)
    requires Bounded(def) && Exact(def)
    requires Complete(action) && Encodes(action, hash, data) && Stored(today)
    ensures Accepts(def, today, hash, data) <==> Permits(def, action, today.volume, holds)
  {
    if Accepts(def, today, hash, data) {
      SafePermits(def, action, today, hash, data, holds);
    } else if Permits(def, action, today.volume, holds) {
      FullAllows(def, action, hash, data);
      VolumeKept(def, action.amount, data.value, today.volume);
      PartsPass(def, today, hash, data);
    }
  }

  /** Whatever is not exact shows up as a complete action on which the two differ. */
  lemma DifferenceShows(def: Definition)
      returns (action: Action, today: Enforcer.Today, hash: Bytes32, data: Enforcer.ActionData,
               holds: Condition -> bool)
    requires Bounded(def) && !Exact(def)
    ensures Encodes(action, hash, data) && Complete(action) && Stored(today)
    ensures Accepts(def, today, hash, data) != Permits(def, action, today.volume, holds)
  {
    var value: Word;
    if Safe(def) {
      action, value, today := InexactShows(def);
      holds := c => true;
    } else {
      action, value, today := UnsafeShows(def);
      holds := c => false;
    }
    hash, data := ActionHash(action.kind), DataOf(action, value);
  }

  /** A definition and its compiled constraints agree on every complete action exactly when the definition is exact. */
  lemma CompiledAgrees(def: Definition)
    requires Bounded(def)
    ensures Agrees(def) <==> Exact(def)
  {
    if Exact(def) {
      forall action, today, hash, data, holds
        | Encodes(action, hash, data) && Complete(action) && Stored(today)
        ensures Accepts(def, today, hash, data) <==> Permits(def, action, today.volume, holds)
      {
        ExactAgrees(def, action, today, hash, data, holds);
      }
    } else {
      var action, today, hash, data, holds := DifferenceShows(def);
    }
  }
}
