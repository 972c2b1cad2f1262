/** onchain_sync.go against engine.go: a policy definition compiled to enforcer constraints. */
module PolicySync {
  import opened Conditions
  import opened Decimal
  import opened Evm
  import opened Hex
  import Enforcer

  datatype Definition = Definition(
    actions: seq<string>, tokens: seq<string>, protocols: seq<string>, chains: seq<Int64>,
    maxValuePerTx: string, maxDailyVolume: string, maxWeeklyVolume: string, maxTxCount: Int64,
    validFrom: Option<int>, validUntil: Option<int>, conditions: seq<Condition>)

  datatype SyncData = SyncData(
    maxValuePerTx: int, maxDailyVolume: int, maxTxCount: int, allowedActions: seq<Bytes32>,
    allowedTokens: seq<Address>, allowedProtocols: seq<Address>, allowedChains: seq<int>)

  // ----- texts to values -----

  function WeiFromString(amount: string): int {
    match ParseInt(amount)
    case Some(n) => n
    case None => 0
  }

  function ActionHash(kind: string): Bytes32 {
    TextHash(Lower(kind))
  }

  /** A big.Int packed as uint256. */
  function AbiUint(n: int): Word {
    n % UINT256_LIMIT
  }

  // ----- buildSyncData -----

  /** A loop that appends what each entry turns into, if anything. */
  function FilterMap<T>(f: string -> Option<T>, list: seq<string>): seq<T> {
    if list == [] then []
    else
      var last := f(list[|list| - 1]);
      FilterMap(f, list[..|list| - 1]) + if last.Some? then [last.value] else []
  }

  function CompileAction(entry: string): Option<Bytes32> {
    if entry == "*" then None else Some(ActionHash(entry))
  }

  function CompileAddress(entry: string): Option<Address> {
    var trimmed := TrimSpace(entry);
    if trimmed != "" && HasPrefix0x(trimmed) then Some(HexToAddress(trimmed)) else None
  }

  function CompileActions(list: seq<string>): seq<Bytes32> {
    FilterMap(CompileAction, list)
  }

  function CompileAddresses(list: seq<string>): seq<Address> {
    FilterMap(CompileAddress, list)
  }

  function Build(def: Definition): SyncData {
    SyncData(WeiFromString(def.maxValuePerTx), WeiFromString(def.maxDailyVolume), def.maxTxCount,
             CompileActions(def.actions), CompileAddresses(def.tokens), CompileAddresses(def.protocols), def.chains)
  }

  function AbiUints(ns: seq<int>): (ws: seq<Word>)
    ensures |ws| == |ns| && forall i :: 0 <= i < |ns| ==> ws[i] == AbiUint(ns[i])
  {
    seq(|ns|, i requires 0 <= i < |ns| => AbiUint(ns[i]))
  }

  /** The constraints setConstraints stores for this data. */
  function OnChain(sd: SyncData): Enforcer.Constraints {
    Enforcer.Constraints(AbiUint(sd.maxValuePerTx), AbiUint(sd.maxDailyVolume), AbiUint(sd.maxTxCount),
                         sd.allowedActions, sd.allowedTokens, sd.allowedProtocols, AbiUints(sd.allowedChains))
  }

  /** An entry compiles, spaces around it aside, exactly when it starts with "0x". */
  lemma EntryCompiles(left: string, entry: string, right: string)
    requires AllSpace(left) && AllSpace(right)
    requires entry != "" ==> !IsSpace(entry[0]) && !IsSpace(entry[|entry| - 1])
    ensures CompileAddress(left + entry + right) ==
            if |entry| >= 2 && entry[0] == '0' && entry[1] == 'x' then Some(HexToAddress(entry)) else None
  {
    TrimsAround(left, entry, right);
  }

  method AppendAddresses(list: seq<string>) returns (addresses: seq<Address>)
    ensures addresses == CompileAddresses(list)
  {
    addresses := [];
    for i := 0 to |list|
      invariant addresses == CompileAddresses(list[..i])
    {
      assert list[..i + 1][..i] == list[..i];
      var entry := TrimSpace(list[i]);
      if entry != "" && HasPrefix0x(entry) {
        addresses := addresses + [HexToAddress(entry)];
      }
    }
    assert list[..|list|] == list;
  }

  method BuildSyncData(def: Definition) returns (sd: SyncData)
    ensures sd == Build(def)
  {
    var actions: seq<Bytes32> := [];
    for i := 0 to |def.actions|
      invariant actions == CompileActions(def.actions[..i])
    {
      assert def.actions[..i + 1][..i] == def.actions[..i];
      if def.actions[i] == "*" { continue; }
      actions := actions + [ActionHash(def.actions[i])];
    }
    assert def.actions[..|def.actions|] == def.actions;
    var tokens := AppendAddresses(def.tokens);
    var protocols := AppendAddresses(def.protocols);
    var chains: seq<int> := [];
    for i := 0 to |def.chains|
      invariant chains == def.chains[..i]
    {
      chains := chains + [def.chains[i]];
    }
    sd := SyncData(WeiFromString(def.maxValuePerTx), WeiFromString(def.maxDailyVolume), def.maxTxCount,
                   actions, tokens, protocols, chains);
  }

  // ----- matchesPolicy -----

  predicate AnyMatches(list: seq<string>, text: string) {
    exists i :: 0 <= i < |list| && (list[i] == "*" || EqualFold(list[i], text))
  }

  predicate Lists(list: seq<string>, text: string) {
    list == [] || AnyMatches(list, text)
  }

  predicate ChainMatches(list: seq<int>, chain: Int64) {
    list == [] || chain == 0 || chain in list
  }

  /** ValidateDefinition lets the cap through: it is absent or an integer. */
  predicate ValidCap(cap: string) {
    cap == "" || ParseInt(cap).Some?
  }

  /** An amount that the cap lets through; comparing with a cap that is no integer panics instead. */
  predicate WithinCap(cap: string, amount: int) {
    cap == "" || (ParseInt(cap).Some? && amount <= ParseInt(cap).value)
  }

  predicate AmountMatches(cap: string, amount: string) {
    amount == "" || (ParseInt(amount).Some? && WithinCap(cap, ParseInt(amount).value))
  }

  /** The daily-volume check, given what the database sums up for today. */
  predicate VolumeMatches(cap: string, amount: string, dailyUsage: int) {
    amount == "" || (ParseInt(amount).Some? && WithinCap(cap, dailyUsage + ParseInt(amount).value))
  }

  predicate ListsMatch(def: Definition, action: Action) {
    && AnyMatches(def.actions, action.kind)
    && (action.token != "" ==> Lists(def.tokens, action.token))
    && (action.protocol != "" ==> Lists(def.protocols, action.protocol))
    && ChainMatches(def.chains, action.chain)
  }

  /** The action, token, protocol, chain and per-transaction checks of matchesPolicy. */
  predicate Matches(def: Definition, action: Action) {
    ListsMatch(def, action) && AmountMatches(def.maxValuePerTx, action.amount)
  }

  /** A given amount is compared with a cap that is no integer. */
  predicate AmountPanics(def: Definition, amount: string) {
    && amount != "" && ParseInt(amount).Some?
    && (!ValidCap(def.maxValuePerTx)
        || (WithinCap(def.maxValuePerTx, ParseInt(amount).value) && !ValidCap(def.maxDailyVolume)))
  }

  /** Everything matchesPolicy asks for. */
  predicate Permits(def: Definition, action: Action, dailyUsage: int, holds: Condition -> bool) {
    && Matches(def, action)
    && VolumeMatches(def.maxDailyVolume, action.amount, dailyUsage)
    && forall i :: 0 <= i < |def.conditions| ==> holds(def.conditions[i])
  }

  method ListAllows(list: seq<string>, text: string) returns (allowed: bool)
    ensures allowed <==> AnyMatches(list, text)
  {
    allowed := false;
    for i := 0 to |list|
      invariant !allowed && forall j :: 0 <= j < i ==> !(EqualFold(list[j], text) || list[j] == "*")
    {
      if EqualFold(list[i], text) || list[i] == "*" {
        allowed := true;
        break;
      }
    }
  }

  method ChainListed(list: seq<Int64>, chain: Int64) returns (allowed: bool)
    ensures allowed <==> chain in list
  {
    allowed := false;
    for i := 0 to |list|
      invariant !allowed && chain !in list[..i]
    {
      if list[i] == chain {
        allowed := true;
        break;
      }
    }
  }

  method AmountAllowed(def: Definition, text: string, dailyUsage: int) returns (allowed: Option<bool>)
    requires text != ""
    ensures allowed == None <==> AmountPanics(def, text)
    ensures allowed == Some(true) <==>
            AmountMatches(def.maxValuePerTx, text) && VolumeMatches(def.maxDailyVolume, text, dailyUsage)
  {
    var amount := ParseInt(text);
    if amount.None? { return Some(false); }
    if def.maxValuePerTx != "" {
      var maxValue := ParseInt(def.maxValuePerTx);
      if maxValue.None? { return None; }
      if amount.value > maxValue.value { return Some(false); }
    }
    if def.maxDailyVolume != "" {
      var maxDaily := ParseInt(def.maxDailyVolume);
      if maxDaily.None? { return None; }
      if dailyUsage + amount.value > maxDaily.value { return Some(false); }
    }
    return Some(true);
  }

  /** Everything matchesPolicy asks for, on the action's own evaluation of the conditions. */
  predicate PermitsAction(def: Definition, action: Action, dailyUsage: int) {
    Permits(def, action, dailyUsage, c => Holds(c, action))
  }

  /** The first condition that does not hold panics. */
  predicate ConditionsPanic(conditions: seq<Condition>, action: Action) {
    exists i :: 0 <= i < |conditions| && Evaluate(conditions[i], action) == None
                && forall j :: 0 <= j < i ==> Holds(conditions[j], action)
  }

  method AllHold(conditions: seq<Condition>, action: Action) returns (all: Option<bool>)
    ensures all == Some(true) <==> forall i :: 0 <= i < |conditions| ==> Holds(conditions[i], action)
    ensures all == None <==> ConditionsPanic(conditions, action)
  {
    for i := 0 to |conditions|
      invariant forall j :: 0 <= j < i ==> Holds(conditions[j], action)
    {
      var holds := EvaluateCondition(conditions[i], action);
      if holds != Some(true) { return holds; }
    }
    return Some(true);
  }

  /** Today's usage comes from the database. None when comparing with a malformed cap or evaluating a
      condition panics. */
  method MatchesPolicy(def: Definition, action: Action, dailyUsage: int) returns (matches: Option<bool>)
    ensures matches == Some(true) <==> PermitsAction(def, action, dailyUsage)
    ensures matches == None <==>
            && ListsMatch(def, action)
            && (AmountPanics(def, action.amount)
                || (&& AmountMatches(def.maxValuePerTx, action.amount)
                    && VolumeMatches(def.maxDailyVolume, action.amount, dailyUsage)
                    && ConditionsPanic(def.conditions, action)))
  {
    var actionAllowed := ListAllows(def.actions, action.kind);
    if !actionAllowed { return Some(false); }
    if |def.tokens| > 0 && action.token != "" {
      var tokenAllowed := ListAllows(def.tokens, action.token);
      if !tokenAllowed { return Some(false); }
    }
    if |def.protocols| > 0 && action.protocol != "" {
      var protocolAllowed := ListAllows(def.protocols, action.protocol);
      if !protocolAllowed { return Some(false); }
    }
    if |def.chains| > 0 && action.chain != 0 {
      var chainAllowed := ChainListed(def.chains, action.chain);
      if !chainAllowed { return Some(false); }
    }
    if action.amount != "" {
      var amountAllowed := AmountAllowed(def, action.amount, dailyUsage);
      if amountAllowed != Some(true) { return amountAllowed; }
    }
    matches := AllHold(def.conditions, action);
  }

  // ----- ValidateDefinition -----

  const VALID_ACTIONS: set<string> :=
    {"swap", "transfer", "approve", "stake", "unstake", "deposit", "withdraw", "mint", "burn", "bridge", "claim",
     "vote", "delegate", "lp_add", "lp_remove", "borrow", "repay", "liquidate", "*"}

  const VALID_OPERATORS: set<string> := {"eq", "ne", "gt", "gte", "lt", "lte", "in", "not_in", "contains", "regex"}

  predicate Validated(def: Definition) {
    && def.actions != []
    && (forall i :: 0 <= i < |def.actions| ==> Lower(def.actions[i]) in VALID_ACTIONS)
    && ValidCap(def.maxValuePerTx) && ValidCap(def.maxDailyVolume) && ValidCap(def.maxWeeklyVolume)
    && (forall i :: 0 <= i < |def.conditions| ==> def.conditions[i].operator in VALID_OPERATORS)
    && (def.validFrom.Some? && def.validUntil.Some? ==> def.validFrom.value <= def.validUntil.value)
  }

  method ValidateDefinition(def: Definition) returns (valid: bool)
    ensures valid == Validated(def)
  {
    if |def.actions| == 0 { return false; }
    for i := 0 to |def.actions|
      invariant forall j :: 0 <= j < i ==> Lower(def.actions[j]) in VALID_ACTIONS
    {
      if Lower(def.actions[i]) !in VALID_ACTIONS { return false; }
    }
    if def.maxValuePerTx != "" && ParseInt(def.maxValuePerTx).None? { return false; }
    if def.maxDailyVolume != "" && ParseInt(def.maxDailyVolume).None? { return false; }
    if def.maxWeeklyVolume != "" && ParseInt(def.maxWeeklyVolume).None? { return false; }
    for i := 0 to |def.conditions|
      invariant forall j :: 0 <= j < i ==> def.conditions[j].operator in VALID_OPERATORS
    {
      if def.conditions[i].operator !in VALID_OPERATORS { return false; }
    }
    if def.validFrom.Some? && def.validUntil.Some? && def.validUntil.value < def.validFrom.value { return false; }
    return true;
  }

  /** On a validated definition no cap makes matchesPolicy panic. */
  lemma ValidatedCapsNeverPanic(def: Definition, amount: string)
    requires Validated(def)
    ensures !AmountPanics(def, amount)
  {
  }

  /** One defect in a validated definition is enough for it to be rejected. */
  lemma DefectsAreRejected(def: Definition, text: string, c: Condition, from: int, until: int)
    requires Validated(def)
    ensures !Validated(def.(actions := []))
    ensures Lower(text) !in VALID_ACTIONS ==> !Validated(def.(actions := def.actions + [text]))
    ensures text != "" && ParseInt(text) == None ==>
              && !Validated(def.(maxValuePerTx := text)) && !Validated(def.(maxDailyVolume := text))
              && !Validated(def.(maxWeeklyVolume := text))
    ensures c.operator !in VALID_OPERATORS ==> !Validated(def.(conditions := def.conditions + [c]))
    ensures until < from ==> !Validated(def.(validFrom := Some(from), validUntil := Some(until)))
  {
    assert (def.actions + [text])[|def.actions|] == text;
    assert (def.conditions + [c])[|def.conditions|] == c;
  }

  /** Validation lets through conditions that never hold, such as any with the operator "regex": then nothing
      is permitted. */
  lemma RegexPermitsNothing(value: Value, action: Action, dailyUsage: int)
    requires value.Decoded()
    ensures var def := Definition(["*"], [], [], [], "", "", "", 0, None, None, [Condition("to", "regex", value)]);
            Validated(def) && !PermitsAction(def, action, dailyUsage)
  {
    assert Lower("*") == "*";
    var def := Definition(["*"], [], [], [], "", "", "", 0, None, None, [Condition("to", "regex", value)]);
    CanHoldExactly(def.conditions[0]);
  }

  // ----- what compilation keeps, list by list -----

  lemma {:induction false} Compiled<T>(f: string -> Option<T>, list: seq<string>, i: nat)
    requires i < |list| && f(list[i]).Some?
    ensures f(list[i]).value in FilterMap(f, list)
  {
    if i < |list| - 1 {
      Compiled(f, list[..|list| - 1], i);
    }
  }

  lemma {:induction false} CompiledFrom<T>(f: string -> Option<T>, list: seq<string>, t: T) returns (i: nat)
    requires t in FilterMap(f, list)
    ensures i < |list| && f(list[i]) == Some(t)
  {
    var n := |list| - 1;
    if f(list[n]) == Some(t) {
      i := n;
    } else {
      i := CompiledFrom(f, list[..n], t);
    }
  }

  /** The compiled actions are never looser than the definition's exactly when it names an action at all. */
  lemma ActionsNeverLooser(list: seq<string>)
    ensures (forall kind :: Enforcer.Allows(CompileActions(list), ActionHash(kind), Zero) ==> AnyMatches(list, kind))
            <==> list != []
  {
    if list == [] {
      assert Enforcer.Allows(CompileActions(list), ActionHash(""), Zero) && !AnyMatches(list, "");
    } else {
      forall kind | Enforcer.Allows(CompileActions(list), ActionHash(kind), Zero)
        ensures AnyMatches(list, kind)
      {
        if CompileActions(list) == [] {
          if list[0] != "*" { Compiled(CompileAction, list, 0); }
        } else if ActionHash(kind) in CompileActions(list) {
          var i := CompiledFrom(CompileAction, list, ActionHash(kind));
        } else {
          var i := CompiledFrom(CompileAction, list, Zero);
        }
      }
    }
  }

  /** Some entry of the list spells the address, up to the case of its letters. */
  predicate Spelled(list: seq<string>, a: Address) {
    exists i :: 0 <= i < |list| && WellFormed(Lower(list[i])) && HexToAddress(Lower(list[i])) == a
  }

  lemma SpelledIsListed(list: seq<string>, text: string)
    requires WellFormed(text)
    ensures Spelled(list, HexToAddress(text)) <==> exists i :: 0 <= i < |list| && EqualFold(list[i], text)
  {
    LowerWellFormed(text);
    forall i | 0 <= i < |list|
      ensures WellFormed(Lower(list[i])) && HexToAddress(Lower(list[i])) == HexToAddress(text)
              <==> EqualFold(list[i], text)
    {
      if WellFormed(Lower(list[i])) {
        SameAddress(Lower(list[i]), text);
        assert Lower(Lower(list[i])) == Lower(list[i]);
      }
    }
  }

  ghost predicate NeverLooser(list: seq<string>) {
    forall text ::
      WellFormed(text) && Enforcer.Allows(CompileAddresses(list), HexToAddress(text), Null) ==> Lists(list, text)
  }

  ghost predicate NeverTighter(list: seq<string>) {
    forall text ::
      WellFormed(text) && Lists(list, text) ==> Enforcer.Allows(CompileAddresses(list), HexToAddress(text), Null)
  }

  /** Absent, or with a wildcard, or with at least one address and every address nonzero and spelled in full. */
  predicate SafeList(list: seq<string>) {
    || list == []
    || "*" in list
    || (CompileAddresses(list) != [] && Null !in CompileAddresses(list)
        && forall a :: a in CompileAddresses(list) ==> Spelled(list, a))
  }

  /** Compiled to "any", or without wildcard and with every address spelled compiled. */
  predicate FullList(list: seq<string>) {
    || CompileAddresses(list) == []
    || Null in CompileAddresses(list)
    || ("*" !in list
        && forall i :: 0 <= i < |list| && WellFormed(Lower(list[i])) ==>
             HexToAddress(Lower(list[i])) in CompileAddresses(list))
  }

  /** What each entry of a list excludes when looking for an address it does not spell. */
  function SpelledValues(list: seq<string>): (ns: seq<nat>)
    ensures |ns| == |list|
    ensures forall i :: 0 <= i < |list| && WellFormed(Lower(list[i])) ==> ns[i] == HexValue(Lower(list[i])[2..])
  {
    seq(|list|, i requires 0 <= i < |list| => if WellFormed(Lower(list[i])) then HexValue(Lower(list[i])[2..]) else 0)
  }

  /** Some address is spelled by no entry. */
  lemma Unspelled(list: seq<string>) returns (text: string)
    requires |list| < ADDRESS_LIMIT
    ensures WellFormed(text) && !exists i :: 0 <= i < |list| && EqualFold(list[i], text)
  {
    var n := Missing(SpelledValues(list));
    text := TextOf(n);
    forall i | 0 <= i < |list| && WellFormed(Lower(list[i]))
      ensures HexToAddress(Lower(list[i])) != AddressOf(n)
    {
      WellFormedValue(Lower(list[i]));
      assert SpelledValues(list)[i] in SpelledValues(list);
    }
    SpelledIsListed(list, text);
  }

  lemma TextOfCompiled(list: seq<string>, a: Address) returns (text: string)
    requires a in CompileAddresses(list)
    ensures WellFormed(text) && HexToAddress(text) == a
  {
    var i := CompiledFrom(CompileAddress, list, a);
    var n := if a == Null then 0 else a.id;
    text := TextOf(n);
  }

  /** A token or protocol list is compiled to nothing looser exactly when it is safe. */
  lemma ListNeverLooser(list: seq<string>)
    requires |list| < ADDRESS_LIMIT
    ensures NeverLooser(list) <==> SafeList(list)
  {
    if SafeList(list) {
      forall text | WellFormed(text) && Enforcer.Allows(CompileAddresses(list), HexToAddress(text), Null)
        ensures Lists(list, text)
      {
        if list != [] && "*" !in list {
          SpelledIsListed(list, text);
        }
      }
    } else {
      var text: string;
      if CompileAddresses(list) == [] || Null in CompileAddresses(list) {
        text := Unspelled(list);
      } else {
        var a :| a in CompileAddresses(list) && !Spelled(list, a);
        text := TextOfCompiled(list, a);
        SpelledIsListed(list, text);
      }
      assert !Lists(list, text) by {
        assert forall i :: 0 <= i < |list| ==> list[i] != "*";
      }
    }
  }

  /** A list of ticker symbols compiles to nothing, which on chain means any token. */
  lemma TickerListIsLooser()
    ensures CompileAddresses(["USDC"]) == [] && !NeverLooser(["USDC"])
  {
    assert ["USDC"][..0] == [];
    assert TrimSpace("USDC") == "USDC";
    ListNeverLooser(["USDC"]);
  }

  /** Some address is missing from any list of addresses. */
  lemma Unlisted(addresses: seq<Address>) returns (text: string)
    requires |addresses| < ADDRESS_LIMIT
    ensures WellFormed(text) && HexToAddress(text) !in addresses
  {
    var ids: seq<nat> := seq(|addresses|, i requires 0 <= i < |addresses| =>
                               if addresses[i].Account? then addresses[i].id else 0);
    var n := Missing(ids);
    text := TextOf(n);
    forall i | 0 <= i < |addresses| ensures addresses[i] != AddressOf(n) {
      assert ids[i] in ids;
    }
  }

  lemma {:induction false} CompiledIsShort<T>(f: string -> Option<T>, list: seq<string>)
    ensures |FilterMap(f, list)| <= |list|
  {
    if list != [] {
      CompiledIsShort(f, list[..|list| - 1]);
    }
  }

  /** A token or protocol list is compiled to nothing tighter exactly when it is full. */
  lemma ListNeverTighter(list: seq<string>)
    requires |list| < ADDRESS_LIMIT
    ensures NeverTighter(list) <==> FullList(list)
  {
    var compiled := CompileAddresses(list);
    if FullList(list) {
      forall text | WellFormed(text) && Lists(list, text)
        ensures Enforcer.Allows(compiled, HexToAddress(text), Null)
      {
        if compiled != [] && Null !in compiled {
          SpelledIsListed(list, text);
          assert Spelled(list, HexToAddress(text));
        }
      }
    } else if "*" in list {
      CompiledIsShort(CompileAddress, list);
      var text := Unlisted(compiled);
      assert Lists(list, text);
    } else {
      var i :| 0 <= i < |list| && WellFormed(Lower(list[i])) && HexToAddress(Lower(list[i])) !in compiled;
      assert Lower(Lower(list[i])) == Lower(list[i]);
      assert EqualFold(list[i], Lower(list[i])) && Lists(list, Lower(list[i]));
    }
  }

  /** 64-bit chain ids keep apart when packed as uint256. */
  lemma PackedChain(chains: seq<Int64>, chain: Int64)
    ensures AbiUint(chain) in AbiUints(chains) <==> chain in chains
    ensures 0 in AbiUints(chains) <==> 0 in chains
  {
    assert forall i :: 0 <= i < |chains| ==> (AbiUints(chains)[i] == AbiUint(chain) <==> chains[i] == chain);
    assert forall i :: 0 <= i < |chains| ==> (AbiUints(chains)[i] == 0 <==> chains[i] == 0);
  }

  /** The chain list is compiled to nothing looser exactly when it does not list 0. */
  lemma ChainsNeverLooser(chains: seq<Int64>)
    requires |chains| < 0x7fff_ffff_ffff_ffff
    ensures (forall chain: Int64 ::
               Enforcer.Allows(AbiUints(chains), AbiUint(chain), 0) ==> ChainMatches(chains, chain))
            <==> 0 !in chains
  {
    forall chain: Int64 {
      PackedChain(chains, chain);
    }
    if 0 in chains {
      var ids: seq<nat> := seq(|chains|, i requires 0 <= i < |chains| => if chains[i] >= 0 then chains[i] else 0);
      var n := Missing(ids);
      forall i | 0 <= i < |chains| ensures chains[i] != n {
        assert ids[i] in ids;
      }
      var chain: Int64 := n;
      assert chain != 0 && Enforcer.Allows(AbiUints(chains), AbiUint(chain), 0) && !ChainMatches(chains, chain);
    }
  }

  /** A cap that is absent or a positive integer; one that is no integer compiles to 0. */
  predicate PositiveCap(cap: string) {
    cap == "" || WeiFromString(cap) > 0
  }

  /** The per-transaction cap is never looser exactly when it is absent or positive. */
  lemma CapNeverLooser(cap: string)
    ensures (forall amount: Word :: Enforcer.Within(AbiUint(WeiFromString(cap)), amount) ==> WithinCap(cap, amount))
            <==> PositiveCap(cap)
  {
    if cap != "" {
      var n := WeiFromString(cap);
      if n <= 0 {
        var amount: Word := if n == 0 then 1 else 0;
        assert Enforcer.Within(AbiUint(WeiFromString(cap)), amount);
      }
    }
  }

  /** Named actions, if any, all come with no wildcard beside them. */
  predicate Unmixed(list: seq<string>) {
    "*" in list ==> forall i :: 0 <= i < |list| ==> list[i] == "*"
  }

  lemma UnmixedKeeps(list: seq<string>, kind: string)
    requires Unmixed(list) && AnyMatches(list, kind)
    ensures Enforcer.Allows(CompileActions(list), ActionHash(kind), Zero)
  {
    var i :| 0 <= i < |list| && (list[i] == "*" || EqualFold(list[i], kind));
    if list[i] != "*" {
      Compiled(CompileAction, list, i);
    } else {
      assert "*" in list;
      if CompileActions(list) != [] {
        var j := CompiledFrom(CompileAction, list, CompileActions(list)[0]);
      }
    }
  }

  /** Some action is named by no entry: one whose length no entry has. */
  lemma UnnamedKind(list: seq<string>) returns (kind: string)
    ensures forall i :: 0 <= i < |list| ==> !EqualFold(list[i], kind)
  {
    var lengths: seq<nat> := seq(|list|, i requires 0 <= i < |list| => |list[i]|);
    var n := Missing(lengths);
    kind := Zeros(n);
    forall i | 0 <= i < |list| ensures !EqualFold(list[i], kind) {
      assert lengths[i] in lengths && |Lower(list[i])| == |list[i]| && |Lower(kind)| == n;
    }
  }

  /** What a wildcard beside a named action lets through off chain and not on chain. */
  lemma MixedLoses(list: seq<string>) returns (kind: string)
    requires !Unmixed(list)
    ensures AnyMatches(list, kind) && !Enforcer.Allows(CompileActions(list), ActionHash(kind), Zero)
  {
    kind := UnnamedKind(list);
    var i :| 0 <= i < |list| && list[i] != "*";
    Compiled(CompileAction, list, i);
    if ActionHash(kind) in CompileActions(list) {
      var j := CompiledFrom(CompileAction, list, ActionHash(kind));
    }
    if Zero in CompileActions(list) {
      var j := CompiledFrom(CompileAction, list, Zero);
    }
  }

  /** The compiled actions are never tighter exactly when no wildcard stands beside a named action. */
  lemma ActionsNeverTighter(list: seq<string>)
    ensures (forall kind :: AnyMatches(list, kind) ==> Enforcer.Allows(CompileActions(list), ActionHash(kind), Zero))
            <==> Unmixed(list)
  {
    if Unmixed(list) {
      forall kind | AnyMatches(list, kind)
        ensures Enforcer.Allows(CompileActions(list), ActionHash(kind), Zero)
      {
        UnmixedKeeps(list, kind);
      }
    } else {
      var kind := MixedLoses(list);
    }
  }

  /** A cap that still binds as it should once packed: below 2^256, or above every amount and packed to one
      that is too. */
  predicate PackedCap(cap: string) {
    WeiFromString(cap) < UINT256_LIMIT || AbiUint(WeiFromString(cap)) in {0, UINT256_LIMIT - 1}
  }

  /** An absent or positive cap is never tighter exactly when it survives packing. */
  lemma CapNeverTighter(cap: string)
    requires PositiveCap(cap)
    ensures (forall amount: Word :: WithinCap(cap, amount) ==> Enforcer.Within(AbiUint(WeiFromString(cap)), amount))
            <==> PackedCap(cap)
  {
    if !PackedCap(cap) {
      var amount: Word := AbiUint(WeiFromString(cap)) + 1;
      assert WithinCap(cap, amount);
    }
  }
}
