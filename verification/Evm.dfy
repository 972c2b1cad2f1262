/** The values the contracts compute with, and how a call ends. */
module Evm {

  const UINT256_LIMIT: nat := 0x1_0000_0000_0000_0000_0000_0000_0000_0000_0000_0000_0000_0000_0000_0000_0000_0000
  type Word = n: nat | n < UINT256_LIMIT

  /** A block timestamp. Clients hold it in 64 bits, so adding one day never leaves 256 bits. */
  type Time = t: nat | t < 0x1_0000_0000_0000_0000

  const DAY: nat := 86400

  /** A nonzero number, so that no address or identifier has two terms. */
  type Positive = n: nat | n > 0 witness 1

  datatype Selector = ExecuteSelector | ExecuteBatchSelector | OtherSelector

  /** Addresses. A CREATE2 address is the term of its preimage (EIP-1014, section
      'Specification'), which makes it collision free and different from the zero address. */
  datatype Address =
    | Null
    | Account(id: Positive)
    | Create2(deployer: Address, salt: Bytes32, initCodeHash: Bytes32)

  /** Identifiers. A keccak hash is the term of its fixed-width preimage: injective, never zero. */
  datatype Bytes32 =
    | Zero
    | Raw(bits: Positive)
    | PolicyId(owner: Address, contentHash: Bytes32, createdAt: Time)
    | PermissionId(policyId: Bytes32, agentId: Bytes32, grantor: Address, grantedAt: Time)
    | ActionId(target: Address, selector: Selector)
    | TextHash(text: string)
    | AccountSalt(owner: Address, signer: Address, agentId: Bytes32, userSalt: Bytes32)
    | InitCodeHash(owner: Address, signer: Address, agentId: Bytes32,
                   enforcer: Address, entryPoint: Address, feeManager: Address)

  /** Why a call reverted. Panic stands for checked arithmetic and array bounds. */
  datatype Error =
    | AgentAlreadyExists | AgentNotFound | NotAgentOwner | AgentAlreadyActive | AgentAlreadyInactive
    | PolicyNotFound | PolicyNotActive | NotPolicyOwner
    | PermissionNotFound | PermissionAlreadyRevoked | AgentNotRegistered | InvalidValidityPeriod
    | NotPermissionGrantor | NotOwner | NotPendingOwner | ZeroAddress | FeeTooHigh
    | NoFeedConfigured | InvalidPrice | StalePrice | NoContract
    | NotAuthorized | ExecutionFailed | FeeTransferFailed | LengthMismatch | BadCalldata
    | InsufficientFunds | InsufficientCreationFee | RefundFailed
    | Panic

  datatype Option<+T> = None | Some(value: T)

  datatype Result<+T> = Ok(value: T) | Revert(error: Error) {
    predicate IsFailure() { Revert? }
    function PropagateFailure<U>(): Result<U>
      requires Revert?
    { Revert(error) }
    function Extract(): T
      requires Ok?
    { value }
  }

  /** Checked 256-bit arithmetic. */
  function Checked(n: nat): Result<Word> {
    if n < UINT256_LIMIT then Ok(n) else Revert(Panic)
  }

  /** A call that changes storage either installs the specified state or leaves everything as it was. */
  ghost predicate Commits<S>(before: S, outcome: Result<()>, after: S, spec: Result<S>) {
    match spec
    case Ok(s) => outcome == Ok(()) && after == s
    case Revert(e) => outcome == Revert(e) && after == before
  }

  type Int256 = x: int | -(UINT256_LIMIT / 2) <= x < UINT256_LIMIT / 2
  const MIN_INT64: int := -0x8000_0000_0000_0000
  const MAX_INT64: int := 0x7fff_ffff_ffff_ffff
  type Int64 = n: int | MIN_INT64 <= n <= MAX_INT64 witness 0
  type Uint8 = n: nat | n < 256

  /** One reading of a price feed contract. */
  datatype Reading = Reading(answer: Int256, updatedAt: Word, decimals: Uint8)

  /** What a call sees of its block: the timestamp and the price feeds outside this system. */
  datatype Block = Block(now: Time, feeds: map<Address, Reading>)

  function Get<K, V>(m: map<K, seq<V>>, k: K): seq<V> {
    if k in m then m[k] else []
  }
}
