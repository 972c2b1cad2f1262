# Guardrail contracts: a verified model

AgentGuardrail lets an owner register AI agents, grant them permissions drawn from policies, and put
constraints on those permissions that smart accounts check before they spend. This project models that
system in Dafny and proves what it keeps over every run.

| file | models |
|---|---|
| `Evm.dfy`, `Arithmetic.dfy` | words, hashes, reverts, blocks; sums and floor division |
| `Identity.dfy`, `Registry.dfy` | the two registries and their indexes |
| `Oracle.dfy`, `Fees.dfy` | price conversion; fee configuration and fee arithmetic |
| `Enforcer.dfy`, `EnforcerContract.dfy` | the constraint check, the permission search, the daily tracker; the contract with its loops |
| `Guardrail.dfy` | registries, enforcer and oracle as one state machine with a clock |
| `Ledger.dfy`, `Account.dfy`, `AccountContract.dfy` | ETH balances, `execute`, `executeBatch`, `validateUserOp` |
| `Factory.dfy` | CREATE2 deployment, fees and refunds |
| `Decimal.dfy`, `Units.dfy` | decimal strings and unit conversion |
| `Hex.dfy`, `Conditions.dfy`, `PolicySync.dfy` | policy definitions, their conditions, their matching and their compilation to constraints |
| `PolicyAgreement.dfy` | whole definitions against their compiled constraints |
| `Indexer.dfy` | the block-range poller |
| `Spending.dfy` | what an account sends on a day when its operations are validated, executed and recorded |
| `Assurance.dfy` | results that need several of these together |

**Form.** A contract is a class with the source's storage as fields. Each method carries out the source's
steps, loops included, and its contract ties the new state to a pure function of the old state (`Apply`,
`Check`, `RecordUsage`, ...). Runs, invariants and comparisons are lemmas about those functions. A call either
installs the specified state or reverts with the specified error and changes nothing (`Evm.Commits`). What these
functions compute, when they succeed and which error they give otherwise is stated apart from their definitions,
in lemmas whose names end in `Exactly`.

**Conventions.** A keccak hash is the term of its fixed-width preimage, so hashes are injective, never zero and
never equal across layouts; CREATE2 addresses likewise (section 'Specification' of EIP-1014). That a text's hash
differs from that of a packed (target, selector) is an assumption for 24-byte texts, whose preimage has the same
length; validated action names have at most 9 characters (`Assurance.ValidatedNamesAreShort`). 256-bit
arithmetic is checked and overflow reverts. Timestamps fit 64 bits. Events that matter to a statement
(`UsageRecorded`, `AccountCreated`) are kept as sequences. Mappings are maps whose missing keys read as the
zero record. Packing a big integer as `uint256` wraps it modulo 2^256, as two's complement does.

**Where the code differs from what one might expect.**

- *Validation records nothing.* `frontend/public/llms-full.txt:409` says `recordUsage` runs inside
  `validateAction`; the code never calls it (`contracts/src/PermissionEnforcer.sol:147-185`), and anyone may
  call it. The caps are therefore stated for runs that record each accepted action (`Guardrail.CapsHold`,
  `Spending.DailyOutflowCapped`). Accepted batches are bounded at all exactly when no positive value is accepted
  (`Account.BatchesBoundedExactly`): under a daily cap of D, a batch of n values D passes
  (`Spending.BatchesEscapeCap`).
- *Daily caps are caps per target.* The tracker's key holds the target, so the operations of a day move at most the
  daily cap for each distinct target they call (`Spending.DailyOutflowCapped`), and D for each of any number of
  targets is reached (`Spending.DailyOutflowIsTight`). The prefund that `validateUserOp` sends to the entry point
  comes on top and has no cap (`Spending.PrefundEscapesCap`).
- *Daily caps count UTC days.* Any 86400 seconds hold at most twice the cap, and a run reaches that across
  midnight (`Guardrail.WindowCapHolds`, `Guardrail.WindowCapIsTight`).
- *Action data below 64 bytes skips every cap.* Each cap binds exactly when the data is not short
  (`Guardrail.CapsBindExactly`); under a cap of N, N + 1 short actions pass on one day
  (`Guardrail.ShortActsExceedCap`).
- *Revocation is final only after the granting block.* An identical grant in the same block has the same id and
  overwrites the record. `Guardrail.DeadForeverExactly` gives the exact condition, `Guardrail.RegrantUndoesRevocation`
  a run of five calls.
- *Some validated conditions never hold*, such as any "regex" and any equality with a chain id: a definition with
  one permits nothing. `Conditions.CanHoldExactly` says which, `PolicySync.RegexPermitsNothing` gives one.
- *Compiled constraints can be looser than the definition*: conditions are dropped, a list of ticker symbols
  compiles to "any token", a zero address or chain 0 to a wildcard, a cap of 0 to no cap, a negative one to a huge
  one. `ValidateDefinition` does not prevent it (`Assurance.ValidatedMayBeLooser`).
  `PolicyAgreement.CompiledPartsNeverLooser` gives the exact condition for the checks both sides make,
  `PolicyAgreement.CompiledNeverLooser` for all that the engine checks.
- *They can be tighter too*: a wildcard beside named actions or addresses is dropped, an address written with a capital `0X`
  beside one written with `0x` is matched off chain and never compiled, a cap of 2^256 or more wraps to a smaller
  one, and the engine counts no transactions. `PolicyAgreement.CompiledPartsAgree` and
  `PolicyAgreement.CompiledAgrees` give the exact conditions for agreement.
- *Synced constraints and account calls hardly meet.* Synced action lists hold hashes of names while accounts ask
  about hashes of (target, selector); accounts ask with no protocol, and with the target as the token. With the
  prices of a given block, every account call is refused exactly when the definition names an action, compiles its
  protocols to a list without the zero address, lists chains without the account's, or compiles its tokens to a
  list that leaves out ETH and holds none that can be quoted (`Assurance.RefusesAccountsExactly`, with
  `Assurance.ProtocolListRefusesAccounts` and `Assurance.TokenListRefusesAccounts`).
- *Synced constraints are set under the permission's UUID*, while permission ids on chain are hashes: in every
  reachable state the call reverts (`Assurance.SyncedIdIsRefused`).
- *The account passes the call's target as the token.* With an oracle, a target without a feed passes only
  through a permission without constraints, and only if no earlier one reverts
  (`Assurance.UnpricedTargetExactly`); a target with a feed has the ETH it is sent counted at the token's price, so
  that 2 D of ETH to a token at half an ETH passes a cap of D (`Spending.CheapTokenEscapesCap`). A cap lets no
  greater amount through exactly when the rate is at least one (`Spending.CapParExactly`, `Spending.ParExactly`).
- *The fee manager takes prices to have 8 decimals* whatever the feed says. Every amount converts correctly exactly
  when the feed has 8 decimals (`Fees.RightAtEightDecimals`, with an input in `Fees.EightDecimalsAssumed`).

## Model

| member | source | states |
|---|---|---|
| `Identity.IdentityRegistry.RegisterAgent` | contracts/src/IdentityRegistry.sol:26-40 | a free id gets the caller as owner and joins its list; a taken id reverts and changes nothing |
| `Identity.IdentityRegistry.DeactivateAgent` | contracts/src/IdentityRegistry.sol:46-55 | only the owner of a known, active agent deactivates it; every other case reverts with its own error |
| `Identity.IdentityRegistry.ReactivateAgent` | contracts/src/IdentityRegistry.sol:61-70 | the converse of deactivation, with its errors |
| `Identity.IdentityRegistry.RemoveFromIndex` | contracts/src/IdentityRegistry.sol:85-93 | the removal loop overwrites the first matching entry by the last and shortens the list |
| `Identity.IdentityRegistry.TransferAgent` | contracts/src/IdentityRegistry.sol:77-99 | ownership moves, the old list loses the agent and the new list, possibly the same, gains it |
| `Identity.CallsSucceedExactly` | contracts/src/IdentityRegistry.sol:26-149 | anyone registers a free id; only its nonzero owner does anything else, deactivating an active and reactivating an inactive agent |
| `Identity.CallsRevertExactly` | contracts/src/IdentityRegistry.sol:26-99 | each of the five errors has exactly its own case |
| `Identity.CallsChangeExactly` | contracts/src/IdentityRegistry.sol:26-149 | what every call leaves of every agent's owner, flag, metadata and record, and that only registration and transfer touch the lists |
| `Identity.SwapPopRemoves` | contracts/src/IdentityRegistry.sol:86-93 | swap-and-pop on a duplicate-free list removes exactly that entry and leaves no duplicates |
| `Identity.SwapPopAt` | contracts/src/IdentityRegistry.sol:87-92 | the recursive removal is the array write followed by the pop |
| `Identity.ApplyKeepsIndex` | contracts/src/IdentityRegistry.sol:26-99 | every registry call keeps each nonzero owner's list equal, without duplicates, to the agents it owns |
| `Registry.PolicyRegistry.CreatePolicy` | contracts/src/PolicyRegistry.sol:75-91 | a policy appears under the hash of caller, content and time, active at version 1, and joins the caller's list |
| `Registry.PolicyRegistry.UpdatePolicy` | contracts/src/PolicyRegistry.sol:98-109 | owner-only change of hash, version and time, version overflow reverting |
| `Registry.PolicyRegistry.DeactivatePolicy` | contracts/src/PolicyRegistry.sol:115-125 | owner-only deactivation with the two errors |
| `Registry.PolicyRegistry.ReactivatePolicy` | contracts/src/PolicyRegistry.sol:131-141 | owner-only reactivation with the two errors |
| `Registry.PolicyRegistry.GrantPermission` | contracts/src/PolicyRegistry.sol:151-180 | the five guards in order, then the record and the index entry; the window is checked on the requested start |
| `Registry.PolicyRegistry.RevokePermission` | contracts/src/PolicyRegistry.sol:186-196 | only the grantor of an unrevoked permission revokes it |
| `Registry.PolicyRegistry.IsPermissionValid` | contracts/src/PolicyRegistry.sol:203-216 | valid exactly when granted, unrevoked, in its window, and its policy active |
| `Registry.CreatesExactly` | contracts/src/PolicyRegistry.sol:75-91 | a created policy is the caller's, active, at version 1 with its content and times; nothing else changes |
| `Registry.ChangesExactly` | contracts/src/PolicyRegistry.sol:98-141 | who may change a policy, and what is left of every policy's owner, flag, version, content and times |
| `Registry.GrantsExactly` | contracts/src/PolicyRegistry.sol:151-180 | a grant succeeds exactly for the owner of an active policy, an active agent and a window that does not end by its requested start, and adds one unrevoked record |
| `Registry.RevokesExactly` | contracts/src/PolicyRegistry.sol:186-196 | only the grantor revokes, once, and only the flag of that record changes |
| `Registry.CallsRevertExactly` | contracts/src/PolicyRegistry.sol:98-196 | each error has exactly its own case, in the order of the checks |
| `Registry.GrantedWindow` | contracts/src/PolicyRegistry.sol:151-216 | while the record stands and the policy is active, the permission is valid exactly within the requested window, a zero bound leaving that side open |
| `Registry.ApplyKeepsInv` | contracts/src/PolicyRegistry.sol:75-196 | every call keeps policies and permissions under their hashes, both indexes exact, and grantors owners of their policies |
| `Registry.ApplyKeepsPermission` | contracts/src/PolicyRegistry.sol:98-196 | no call changes a permission granted in an earlier block except from unrevoked to revoked |
| `Oracle.PriceOracle.GetEthValue` | contracts/src/PriceOracle.sol:36-64 | feed, price and staleness checks in order, then the scaled quotient in checked arithmetic |
| `Oracle.EthValueExactly` | contracts/src/PriceOracle.sol:36-64 | a nonzero token is worth v wei exactly when it has a feed, readings T and E are fresh, nothing overflows and v * E * 10^tokenDecimals <= amount * T * 10^ethDecimals < (v + 1) * E * 10^tokenDecimals |
| `Oracle.EthValueRevertsExactly` | contracts/src/PriceOracle.sol:42-63 | which error each missing feed, unusable reading or overflow gives, in order |
| `Oracle.FreshExactly` | contracts/src/PriceOracle.sol:48-50 | a reading is used exactly when it is positive, at most 3600 seconds old and not from the future |
| `Oracle.StaleExactly` | contracts/src/PriceOracle.sol:48-50 | each reason to refuse a reading has exactly its own error |
| `Oracle.FeedsChangeExactly` | contracts/src/PriceOracle.sol:28-34 | only the owner changes feeds, one token at a time |
| `Oracle.Normalize` | contracts/src/PriceOracle.sol:62-63 | multiplying step by step overflows exactly when the whole product does, and gives the same quotient |
| `Oracle.ConvertIsFloor` | contracts/src/PriceOracle.sol:59-63 | the result is the greatest number of wei worth no more than the amount |
| `Oracle.EthUsdPriceIsFresh` | contracts/src/PriceOracle.sol:66-71 | a price is returned exactly for the positive answer of a known feed updated within the last hour and not in the future |
| `EnforcerContract.Listed` | contracts/src/PermissionEnforcer.sol:236-243 | an allow-list loop finds the element or the wildcard exactly when one is there |
| `EnforcerContract.PermissionEnforcer.CheckConstraints` | contracts/src/PermissionEnforcer.sol:215-331 | the step-by-step check gives the declarative verdict, including where it reverts |
| `Enforcer.CheckAcceptsExactly` | contracts/src/PermissionEnforcer.sol:215-331 | an action is accepted exactly when there are no constraints, or its hash is listed and, unless the data is short, it is quoted, within each of the three caps, its token is listed in either format, and in the extended format its protocol and chain are |
| `Enforcer.CheckRevertsExactly` | contracts/src/PermissionEnforcer.sol:215-331 | the check reverts exactly for a listed action of full data that has no quote, or passes value and lists and overflows the daily sum |
| `Enforcer.QuotedBy` | contracts/src/PermissionEnforcer.sol:252-255 | the value is the amount itself without an oracle or for ETH, and the oracle's otherwise |
| `EnforcerContract.PermissionEnforcer.ValidateAction` | contracts/src/PermissionEnforcer.sol:147-185 | the loop over the agent's permissions computes the specified search |
| `EnforcerContract.PermissionEnforcer.RecordUsage` | contracts/src/PermissionEnforcer.sol:193-207 | lazy reset to midnight, then both counters in checked arithmetic, and the event |
| `EnforcerContract.PermissionEnforcer.GetUsage` | contracts/src/PermissionEnforcer.sol:340-352 | the tracker's counters, or zeros once its day is over |
| `EnforcerContract.PermissionEnforcer.GetRemainingQuota` | contracts/src/PermissionEnforcer.sol:362-383 | caps less today's usage, never below zero |
| `EnforcerContract.PermissionEnforcer.SetConstraints` | contracts/src/PermissionEnforcer.sol:84-108 | only the grantor replaces a permission's constraints |
| `EnforcerContract.PermissionEnforcer.SetPriceOracle` | contracts/src/PermissionEnforcer.sol:68-71 | only the owner rewires the oracle |
| `Enforcer.ConstraintsChangeExactly` | contracts/src/PermissionEnforcer.sol:84-108 | only the grantor, and only this permission's record |
| `Enforcer.OracleChangesExactly` | contracts/src/PermissionEnforcer.sol:68-71 | only the owner, and only the oracle |
| `Enforcer.RecordsExactly` | contracts/src/PermissionEnforcer.sol:193-207 | recording succeeds exactly when today's sums fit, adds the value and one to today's usage, appends one event and leaves every other key alone |
| `Enforcer.ValidateIsEarliest` | contracts/src/PermissionEnforcer.sol:147-185 | accepted exactly when the agent is active and the earliest permission that does not reject accepts, naming it and its expiry; refused exactly when the agent is inactive or all reject |
| `Enforcer.ValidateIsExistence` | contracts/src/PermissionEnforcer.sol:157-184 | when no permission reverts, valid exactly when the agent is active and some listed permission is valid and meets every constraint |
| `Enforcer.CheckMonotone` | contracts/src/PermissionEnforcer.sol:215-331 | tighter caps, smaller lists (wildcards included) or more usage never turn a rejection into an acceptance |
| `Enforcer.ValidateMonotone` | contracts/src/PermissionEnforcer.sol:147-185 | an action accepted in a more restrictive state is not refused in a laxer one; there it is accepted or the search reverts |
| `Enforcer.ValidateMonotoneQuoted` | contracts/src/PermissionEnforcer.sol:147-185 | with the token quoted and no overflow it is accepted outright |
| `Enforcer.UsageIsHistory` | contracts/src/PermissionEnforcer.sol:340-352 | an exact tracker reports exactly the values recorded on the current UTC day |
| `Enforcer.RecordKeepsTrackers` | contracts/src/PermissionEnforcer.sol:193-207 | recording keeps every tracker at the midnight of the day it counts and equal to that day's history |
| `Enforcer.QuotaPredictsCheck` | contracts/src/PermissionEnforcer.sol:362-383 | with both caps set, an otherwise allowed value passes exactly when it is within the reported quota, a transaction is left and the day is not already over its cap |
| `Guardrail.ReachableInv` | contracts/src/PolicyRegistry.sol:75-216 | all invariants hold in every state reachable by any callers in any order |
| `Guardrail.ReachableIndexes` | contracts/src/IdentityRegistry.sol:133-135 | in every reachable state the owner lists and permission lists are exact and every grantor owns its policy |
| `Guardrail.UsageIsHistoryAfterAnyRun` | contracts/src/PermissionEnforcer.sol:193-207 | after any run, at any later time, `getUsage` is the sum and number of values recorded that UTC day |
| `Guardrail.AcceptedIsAuthorized` | contracts/src/PermissionEnforcer.sol:147-185 | a valid result names a live permission of that agent from the owner of an active policy, and the agent is active |
| `Guardrail.RunKeepsPermission` | contracts/src/PolicyRegistry.sol:151-196 | past its granting block, no run changes a permission except to revoke it |
| `Guardrail.GrantedWindowHolds` | contracts/src/PolicyRegistry.sol:151-216 | in every later block of every run, an unrevoked permission of an active policy is valid exactly within the window its grant asked for |
| `Guardrail.DeactivationStops` | contracts/src/IdentityRegistry.sol:46-55 | after a deactivation no action of the agent is accepted in any run in which nobody reactivates it or registers it anew |
| `Guardrail.DeadForeverExactly` | contracts/src/PolicyRegistry.sol:186-216 | in a reachable state a revoked or expired permission can never be valid again exactly when its grant lies in an earlier block |
| `Guardrail.RegrantUndoesRevocation` | contracts/src/PolicyRegistry.sol:165-177 | a concrete run inside one block in which a revoked permission becomes valid |
| `Guardrail.CapsHold` | contracts/src/PermissionEnforcer.sol:306-327 | over every run that records each accepted action of full data under capped permissions, each UTC day's volume and count stay within the caps |
| `Guardrail.CapsBindExactly` | contracts/src/PermissionEnforcer.sol:248-328 | for an allowed action, each of the three caps, when set, binds every acceptance exactly when the data is not short |
| `Guardrail.ShortActsAreUnlimited` | contracts/src/PermissionEnforcer.sol:215-252 | where a short action is accepted once, any number in a row is accepted and counted, whatever the caps |
| `Guardrail.ShortActsExceedCap` | contracts/src/PermissionEnforcer.sol:215-252 | a concrete setting where N + 1 short actions are counted on a day under a cap of N |
| `Guardrail.WindowCapHolds` | contracts/src/PermissionEnforcer.sol:193-207 | over every run that records each accepted action, any 86400 seconds hold at most twice the daily volume cap |
| `Guardrail.WindowCapIsTight` | contracts/src/PermissionEnforcer.sol:193-207 | for every positive cap such a run records twice the cap within two seconds across midnight |
| `Guardrail.DayTotalBounded` | contracts/src/PriceOracle.sol:59-63 | in such a run on one token at one rate, converting the day's total gives at least the recorded volume and at most D + N - 1 |
| `Fees.DeployFeeManager` | contracts/src/GuardrailFeeManager.sol:44-61 | deployment reverts on a zero address or a share above the maximum, else yields the given configuration |
| `Fees.DeploysExactly` | contracts/src/GuardrailFeeManager.sol:44-61 | deployment succeeds exactly with an oracle, a collector and a share of at most 1000 basis points, and sets every field as given |
| `Fees.SettersExactly` | contracts/src/GuardrailFeeManager.sol:89-124 | who may make each call and within which limits, its errors, and that it changes its own setting and no other |
| `Fees.GuardrailFeeManager.CalculateTransferFee` | contracts/src/GuardrailFeeManager.sol:77-87 | the floored share or the cap in wei, whichever is less, with overflow and oracle errors in order |
| `Fees.TransferFeeExactly` | contracts/src/GuardrailFeeManager.sol:77-87 | at the fresh price p the fee f is the greatest with f * p <= capUsd * 10^20 and f * 10000 <= value * bps; with no cap in dollars it is zero |
| `Fees.TransferFeeRevertsExactly` | contracts/src/GuardrailFeeManager.sol:77-87 | there is no fee exactly when the share or the cap overflows or the price is not to be had, with the error of the first |
| `Fees.CreationFeeExactly` | contracts/src/GuardrailFeeManager.sol:68-70 | the creation fee w satisfies w * p <= usd * 10^20 < (w + 1) * p at the fresh price |
| `Fees.UsdToWeiIsFloor` | contracts/src/GuardrailFeeManager.sol:132-136 | the wei w for a positive dollar amount satisfy w * price <= usd * 10^20 < (w + 1) * price at the fresh ETH price |
| `Fees.RightAtEightDecimals` | contracts/src/GuardrailFeeManager.sol:128-136 | with a fresh price, every dollar amount that converts comes out as the reading's own decimals say, floored, exactly when the feed has 8 decimals |
| `Fees.EightDecimalsAssumed` | contracts/src/GuardrailFeeManager.sol:132-136 | an input: the same price in 18 decimals makes ten dollars 500000 wei instead of 0.005 ETH |
| `Fees.GuardrailFeeManager.SetTransferFee` | contracts/src/GuardrailFeeManager.sol:100-105 | only the owner, and never above the maximum share |
| `Fees.GuardrailFeeManager.AcceptOwnership` | contracts/src/GuardrailFeeManager.sol:119-124 | only the nominee takes ownership, and the nomination is cleared |
| `Fees.ReachableIsConfigured` | contracts/src/GuardrailFeeManager.sol:44-124 | every reachable configuration charges at most ten percent and has a collector |
| `Fees.SplittingSavesLittle` | contracts/src/GuardrailFeeManager.sol:77-87 | splitting a transfer into n parts saves at most n - 1 wei, and the fees never exceed the share of the whole or a tenth of it |
| `Fees.SplittingBoundIsTight` | contracts/src/GuardrailFeeManager.sol:77-87 | at one basis point, under a cap the whole does not reach, n transfers of 9999 wei are free and their sum is charged n - 1 wei |
| `Fees.FeeBelowTenth` | contracts/src/AgentSmartAccount.sol:144 | a fee is at most a tenth of its value, so the subtraction cannot underflow |
| `Ledger.PayConserves` | contracts/src/AgentSmartAccount.sol:139-145 | a transfer, also to oneself, keeps the total of ETH |
| `AccountContract.AgentSmartAccount.Execute` | contracts/src/AgentSmartAccount.sol:133-148 | fee first, then the rest to the target; any failure reverts and restores every balance |
| `Account.ExecuteSucceedsExactly` | contracts/src/AgentSmartAccount.sol:133-148 | success exactly when there is a fee of at most the value, the collector takes it if positive, the target takes the rest and the balance covers both |
| `Account.ExecuteRevertsExactly` | contracts/src/AgentSmartAccount.sol:133-148 | which error each failure gives, in order |
| `Account.ExecutePaysFeeManager` | contracts/src/AgentSmartAccount.sol:138-147 | every balance afterwards: calculateTransferFee's fee to its collector, the rest to the target |
| `AccountContract.AgentSmartAccount.ExecuteBatch` | contracts/src/AgentSmartAccount.sol:157-182 | the loop computes the specified fold over the zipped calls or restores every balance |
| `AccountContract.AgentSmartAccount.ValidateUserOp` | contracts/src/AgentSmartAccount.sol:59-124 | returns 1 or reverts without moving ETH, or returns 0 after the prefund, exactly as screened |
| `Account.ScreenPassesExactly` | contracts/src/AgentSmartAccount.sol:59-124 | 0 exactly for a signed operation from the entry point whose calldata is short or has another selector, is one accepted call, or a batch whose every pair is accepted |
| `Account.ScreenRefusesExactly` | contracts/src/AgentSmartAccount.sol:59-124 | 1 exactly for an operation from the entry point that is unsigned, is one refused call, or a batch of which a pair is refused after all before it are accepted |
| `Account.PrefundMoves` | contracts/src/AgentSmartAccount.sol:117-121 | the prefund moves the missing funds exactly when the account has them and the entry point takes them |
| `Account.CallsExactly` | contracts/src/AgentSmartAccount.sol:133-182 | calldata turns into calls exactly when it decodes, a batch with three lists of one length, and into its entries in order |
| `Account.BatchIsSequenceBelowOverflow` | contracts/src/AgentSmartAccount.sol:157-182 | a batch succeeds exactly when `execute` on each element in order does and the fees total below 2^256, with the same ledger and total |
| `Account.BatchIsSequence` | contracts/src/AgentSmartAccount.sol:133-182 | with a collector other than the account, batch and sequence agree outright |
| `Account.BatchLedger` | contracts/src/AgentSmartAccount.sol:157-182 | total ETH is conserved and every address's final balance is given by what it was sent, the fees and the values |
| `Account.BatchCost` | contracts/src/AgentSmartAccount.sol:157-182 | the sum of the values is the total of fees plus what is sent on; when no target is the account and the collector is another, its balance falls by exactly that sum |
| `Account.BatchFeesBelowTenth` | contracts/src/AgentSmartAccount.sol:157-182 | under a reachable fee configuration a batch's fees are at most a tenth of its values |
| `Account.AskAllIsEach` | contracts/src/AgentSmartAccount.sol:100-113 | a batch passes exactly when each target has a value and each pair passes on its own |
| `Account.ExecutedWasAccepted` | contracts/src/AgentSmartAccount.sol:73-115 | after a validation that returned 0, every (target, value) the same calldata executes was accepted by the enforcer in it |
| `Account.BatchesBoundedExactly` | contracts/src/AgentSmartAccount.sol:100-113 | in any state some bound holds for the total of accepted batches exactly when no pair with a positive value is accepted on its own |
| `Spending.BatchesEscapeCap` | contracts/src/AgentSmartAccount.sol:100-113 | a concrete state with a daily cap of D in which a batch of any number n of values D, totalling n D, passes |
| `Spending.DailyOutflowCapped` | contracts/src/AgentSmartAccount.sol:59-148 | over every run from deployment in which permissions are capped and each `execute` is validated, prefunded, executed and recorded, whatever else moves ETH in between, the operations calling a set of targets at par on a UTC day change the balance of any address by at most the daily cap times the number of distinct targets called; for the account and the entry point, plus the prefunds |
| `Spending.DailyOutflowIsTight` | contracts/src/AgentSmartAccount.sol:187-189 | for any number n of distinct targets such a run moves n times the daily cap on one day |
| `Spending.PrefundEscapesCap` | contracts/src/AgentSmartAccount.sol:118-121 | a concrete state with a daily cap of D in which one operation without value moves D + 1 out of the account |
| `Spending.ParExactly` | contracts/src/PriceOracle.sol:59-63 | conversion takes no amount for less than it is exactly when the rate is at least one |
| `Spending.CapParExactly` | contracts/src/PriceOracle.sol:59-63 | for a cap D such that D + 1 converts without overflow, no greater amount converts to within it exactly when the rate is at least one |
| `Spending.CheapTokenEscapesCap` | contracts/src/AgentSmartAccount.sol:82-86 | a concrete state with a daily cap of D in which a call sending 2 D of ETH to a token quoted at half an ETH is accepted |
| `Factory.AgentAccountFactory.CreateAccount` | contracts/src/AgentAccountFactory.sol:41-90 | returns the predicted account; deploys, charges and refunds as specified or restores every balance |
| `Factory.CreateSucceedsExactly` | contracts/src/AgentAccountFactory.sol:41-84 | success exactly when the sender has the value and, on a repeat, takes it back; on a first call when it covers the fee, the collector takes that and the sender any excess |
| `Factory.CreateRevertsExactly` | contracts/src/AgentAccountFactory.sol:41-84 | which error each failure gives, in order |
| `Factory.AddressesDiffer` | contracts/src/AgentAccountFactory.sol:108-131 | addresses coincide exactly for the same factory and parameters, which the salt alone tells apart |
| `Factory.EveryRun` | contracts/src/AgentAccountFactory.sol:41-131 | over every run the factory's balance is constant, no parameters are deployed twice, every account is at `getAddress`, and every address gains exactly the fees it collected less those it paid |
| `Factory.RepeatIsFree` | contracts/src/AgentAccountFactory.sol:51-58 | a repeat call deploys nothing and leaves every balance as it was |
| `Factory.FirstCallDeploys` | contracts/src/AgentAccountFactory.sol:60-84 | a first call that covers the fee, with payees that take ETH, deploys at the predicted address, logs it, and moves exactly the fee from payer to collector, every other balance unchanged |
| `Decimal.PrintValue` | frontend/src/lib/units.ts:23-37 | printing a value gives back its one canonical numeral |
| `Units.ToWeiIsFloor` | frontend/src/lib/units.ts:9-24 | for every string the input lets through, `toWei` prints the canonical decimal of the value times 10^d rounded down |
| `Units.RoundTrip` | frontend/src/lib/units.ts:9-42 | `toWei` undoes `fromWei` on every canonical amount in every unit |
| `Units.FromWeiShape` | frontend/src/lib/units.ts:26-42 | `fromWei` prints no trailing fraction zero and no trailing dot |
| `Units.TypedThenShown` | frontend/src/lib/units.ts:9-42 | `fromWei` after `toWei` is the canonical form of the input truncated to d digits |
| `Units.MultiplierIsPower` | frontend/src/lib/units.ts:19-31 | the multiplier spelled as a string is the power of ten |
| `Units.WholeAmounts` | frontend/src/lib/units.ts:1-24 | a whole amount gains 9 zeros from gwei and 18 from ETH, and none from wei |
| `PolicySync.BuildSyncData` | backend/internal/domain/policy/onchain_sync.go:138-189 | the loops compute the filtered and converted lists |
| `Decimal.ParsesExactly` | backend/internal/domain/policy/engine.go:45-59 | a cap is an integer exactly when it is a nonempty run of digits, perhaps after one sign |
| `PolicySync.EntryCompiles` | backend/internal/domain/policy/onchain_sync.go:153-167 | an entry compiles, spaces around it aside, exactly when it starts with "0x", and to its address |
| `PolicyAgreement.AcceptsExactly` | backend/internal/domain/policy/onchain_sync.go:138-189 | under the compiled constraints an action passes exactly when its parts do and the day stays within the definition's own volume and count caps as packed |
| `Conditions.EvaluateCondition` | backend/internal/domain/policy/engine.go:247-337 | the switch and its loops compute the specified outcome, panics on comparing slices or maps included |
| `Conditions.HoldsExactly` | backend/internal/domain/policy/engine.go:247-337 | each operator holds exactly as equality, order, membership or containment say; a value that is no number compares as equal |
| `Conditions.TruncateTowardZero` | backend/internal/domain/policy/engine.go:322-337 | a float within int64 is cut off toward zero |
| `Conditions.CanHoldExactly` | backend/internal/domain/policy/engine.go:247-337 | a condition decoded from JSON holds on some action exactly when its operator is evaluated and its value fits the field, as spelled out per operator |
| `PolicySync.MatchesPolicy` | backend/internal/domain/policy/engine.go:137-224 | true exactly when action, lists, chain, per-transaction value, daily volume and every condition match; panics exactly when the lists match and the amount is compared with a malformed cap, or all else matches and the first condition not to hold panics |
| `PolicySync.ValidateDefinition` | backend/internal/domain/policy/engine.go:29-76 | accepts exactly definitions with at least one action, all known, integer caps, known operators and an ordered duration |
| `PolicySync.DefectsAreRejected` | backend/internal/domain/policy/engine.go:29-76 | any one defect in an otherwise valid definition has it rejected |
| `PolicySync.ValidatedCapsNeverPanic` | backend/internal/domain/policy/engine.go:166-190 | on a validated definition no cap makes matchesPolicy panic |
| `PolicySync.RegexPermitsNothing` | backend/internal/domain/policy/engine.go:29-76 | a validated definition with the operator "regex" that permits no action |
| `PolicySync.ActionsNeverLooser` | backend/internal/domain/policy/onchain_sync.go:145-151 | the compiled action list is never looser exactly when the definition names an action |
| `PolicySync.ActionsNeverTighter` | backend/internal/domain/policy/onchain_sync.go:145-151 | it is never tighter exactly when no wildcard stands beside a named action |
| `PolicySync.ListNeverLooser` | backend/internal/domain/policy/onchain_sync.go:153-167 | a token or protocol list is compiled to nothing looser exactly when it is empty, holds "*", or yields addresses that are all nonzero and spelled in full |
| `PolicySync.ListNeverTighter` | backend/internal/domain/policy/onchain_sync.go:153-167 | it is compiled to nothing tighter exactly when it yields "any", or has no "*" and compiles every address it spells |
| `PolicySync.ChainsNeverLooser` | backend/internal/domain/policy/onchain_sync.go:169-172 | the chain list is never looser exactly when it does not list 0 |
| `PolicySync.CapNeverLooser` | backend/internal/domain/policy/onchain_sync.go:140 | the per-transaction cap is never looser exactly when it is absent or positive |
| `PolicySync.CapNeverTighter` | backend/internal/domain/policy/onchain_sync.go:140 | such a cap is never tighter exactly when it is below 2^256 or packs to none or to the greatest word |
| `PolicyAgreement.CompiledPartsNeverLooser` | backend/internal/domain/policy/onchain_sync.go:138-189 | without an oracle, whatever the enforcer accepts under the compiled constraints passes the engine's action, token, protocol, chain and per-transaction checks exactly when the definition has actions, safe lists, no chain 0 and an absent or positive cap, whatever its conditions and daily cap |
| `PolicyAgreement.CompiledPartsAgree` | backend/internal/domain/policy/engine.go:137-194 | on those checks the two agree on every complete action and usage exactly when moreover actions are unmixed, lists full, the cap survives packing, and no daily cap or count cap is set on chain |
| `PolicyAgreement.CompiledNeverLooser` | backend/internal/domain/policy/onchain_sync.go:138-189 | whatever the enforcer accepts passes all the engine's checks, daily volume included, on any usage and whatever the conditions evaluate to, exactly when moreover there are no conditions and the daily cap is safe |
| `PolicyAgreement.CompiledAgrees` | backend/internal/domain/policy/engine.go:137-224 | the two agree on every complete action, usage and evaluation of conditions exactly when the definition is moreover unmixed, its lists full, its caps not cut by packing, and no count cap is set |
| `PolicySync.TickerListIsLooser` | backend/internal/domain/policy/onchain_sync.go:154-159 | a list of one ticker symbol compiles to "any token" |
| `Hex.SameAddress` | backend/internal/blockchain/helpers.go:82-84 | well-formed texts denote one address exactly when they differ only in case |
| `Hex.DigitsDenote` | backend/internal/blockchain/helpers.go:82-84 | hexadecimal digits in any number, after "0x" or "0X", denote their value modulo 2^160 |
| `Hex.EqualFoldExactly` | backend/internal/domain/policy/engine.go:141 | texts are equal up to case exactly when they differ only in ASCII letters 32 apart |
| `Indexer.Poller.PollOnce` | backend/internal/blockchain/indexer.go:94-159 | one poll takes the specified window and hands its logs over in order, or changes nothing |
| `Indexer.PollsExactly` | backend/internal/blockchain/indexer.go:94-159 | a poll changes anything exactly when the head is known, addresses are watched, the query works and there are new blocks |
| `Indexer.FirstPollLooksBack` | backend/internal/blockchain/indexer.go:100-122 | with nothing stored, the first poll takes the last 1000 blocks, or all but block 0 |
| `Indexer.LogsOfBlock` | backend/internal/blockchain/indexer.go:131-147 | a one-block range holds that block's logs |
| `Indexer.ExactlyOnce` | backend/internal/blockchain/indexer.go:94-159 | over every run with failures anywhere, each block from the first start to the stored block lies in exactly one range of at most 2001 blocks, and the logs handled are exactly theirs in order |
| `Indexer.Progress` | backend/internal/blockchain/indexer.go:114-154 | at a fixed head, k successful polls move exactly 2001 k blocks on or stop at the head |
| `Indexer.HeadReachedExactly` | backend/internal/blockchain/indexer.go:114-154 | the head is reached exactly by the ceiling of distance / 2001 successful polls |
| `Assurance.ExecutedIsBacked` | contracts/src/AgentSmartAccount.sol:59-182 | from any reachable state, every call executed after a successful validation is backed by a live permission of the account's agent whose constraints accept it |
| `Assurance.UnpricedTargetExactly` | contracts/src/AgentSmartAccount.sol:82-86 | with an oracle that has no feed for the target, a call is accepted exactly when the agent is active and some valid permission has no constraints while each earlier one is invalid or constrained to other actions |
| `Assurance.RefusesAccountsExactly` | contracts/src/AgentSmartAccount.sol:82-115 | with a given oracle and block, compiled constraints refuse every account call exactly when the definition names an action, or its compiled protocols exclude the zero address, or its chains the account's, or its compiled tokens exclude ETH and none of them can be quoted |
| `Assurance.ProtocolListRefusesAccounts` | contracts/src/PermissionEnforcer.sol:280-290 | a definition of wildcards alone but for one protocol refuses every account call |
| `Assurance.TokenListRefusesAccounts` | contracts/src/PermissionEnforcer.sol:252-278 | so does one of wildcards alone but for one token that the oracle has no feed for |
| `Assurance.SyncedIdIsRefused` | backend/internal/domain/policy/onchain_sync.go:93 | in every reachable state setting constraints under a UUID reverts: stored ids are hashes |
| `Assurance.ValidatedMayBeLooser` | backend/internal/domain/policy/engine.go:29-76 | validation accepts a definition whose compiled token list is looser |

## Left out

- MatchesPolicy: what the database sums up for today is an input.
- EvaluateCondition: JSON numbers are reals, and one outside int64 converts as on amd64, since Go leaves that open.
- CapsHold: speaks of runs that record what they accept; the contracts themselves do not tie recording to validation.
- ListNeverLooser: lists of at least 2^160 entries, which no slice holds, are excluded.
- ChainsNeverLooser: lists of at least 2^63 - 1 entries are excluded.
- CompiledNeverLooser: speaks of definitions with lists below those lengths, of 128-byte action data, and of one usage for both sides; conditions are judged over every evaluation, so one that always holds counts as looser.
- CompiledAgrees: the same, for actions with every field present; an absent field is not compared off chain.
- DailyOutflowCapped: operations are single executes signed by the account's signer; batches escape the cap, as `BatchesEscapeCap` shows, and calls the owner makes directly are not validated at all.
- ExecutedWasAccepted: calldata is taken as its length, selector and decoded arguments; of the ABI decoder only the size of the head is modelled.
- Execute: a call is an ETH transfer whose outcome depends on target, value and data; a target that takes ETH once and refuses it later, reentrancy, gas and other effects of targets are not modelled.
- DeployFeeManager: the constructor it calls may assume the three guards, which the method has checked.
- FirstCallDeploys: speaks of payees that take ETH; with others the call reverts as `Factory.Create` states.
- ECDSA recovery: whether the signature is the signer's is an input.
- The six-argument `setConstraints` overload (contracts/src/PermissionEnforcer.sol:113-138), which stores empty protocol and chain lists.
- Metadata, policy content and owner-list getters beyond their storage; most events.
- An address word with dirty upper bits in action data, on which ABI decoding reverts.
- Non-ASCII text in definitions, where case folding and trimming know more characters.
- BigInt on texts the input field does not let through, such as signs, hexadecimal or spaces.
- Truncation of CREATE2 hashes to 160 bits, and hash collisions in general.
- Chain reorganisations, failing database calls and the audit records the indexer writes per event.
- HTTP handlers, SQL, configuration, pages, deployment scripts and the recovery contract: plumbing around the modelled core.
