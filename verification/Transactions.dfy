/**
  Transactions, accounts and 64-bit arithmetic (src/core/transaction.rs).
 */
module Transactions {

  const U64_MAX: nat := 0xFFFF_FFFF_FFFF_FFFF

  type u64 = n: nat | n <= U64_MAX

  function SaturatingAdd(a: u64, b: u64): u64 {
    if a + b > U64_MAX then U64_MAX else a + b
  }

  function SaturatingMul(a: u64, b: u64): u64 {
    if a * b > U64_MAX then U64_MAX else a * b
  }

  function SaturatingSub(a: u64, b: u64): u64 {
    if a < b then 0 else a - b
  }

  /** `a + b` as the compiled program computes it. */
  function WrappingAdd(a: u64, b: u64): u64 {
    (a + b) % (U64_MAX + 1)
  }

  /** 20-byte addresses and 32-byte transaction hashes, as numbers. */
  type Address = nat
  type TxId = nat
  type Bytes = seq<nat>

  datatype Payload =
    | Transfer(to: Address, amount: u64)
    | Deploy(code: Bytes, initArgs: Bytes)
    | Call(contract: Address, entry: string, args: Bytes)

  /** `signed` says that the signature is well formed and recovers to `from`. */
  datatype Transaction = Transaction(
    from: Address,
    payload: Payload,
    nonce: u64,
    gasLimit: u64,
    gasPrice: u64,
    signed: bool)

  datatype TxError =
    | NoGas
    | NoGasPrice
    | ZeroAmount
    | BadSignature
    | BadNonce
    | InsufficientBalance
    | InsufficientForFee
    | VmRejected
    | VmFailed
    | ContractNotFound

  datatype Validity = Fine | Bad(error: TxError)

  function ValidateBasic(tx: Transaction): Validity {
    if tx.gasLimit == 0 then Bad(NoGas)
    else if tx.gasPrice == 0 then Bad(NoGasPrice)
    else if tx.payload.Transfer? && tx.payload.amount == 0 then Bad(ZeroAmount)
    else if !tx.signed then Bad(BadSignature)
    else Fine
  }

  datatype Account = Account(balance: u64, nonce: u64)

  const NO_ACCOUNT := Account(0, 0)

  type Accounts = map<Address, Account>

  /** A missing account reads as the empty one. */
  function AccountOf(m: Accounts, a: Address): Account {
    if a in m then m[a] else NO_ACCOUNT
  }

  /** Accounts outside `parties` read as before. */
  ghost predicate OthersKept(m: Accounts, m': Accounts, parties: set<Address>) {
    forall a :: a !in parties ==> AccountOf(m', a) == AccountOf(m, a)
  }
}
