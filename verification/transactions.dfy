/**
 The transaction data types of the node (src/transactions.rs), plus the digest
 and nonce types of src/miner.rs, which are declared here so that the module
 order stays acyclic (a transaction input refers to a digest, a block holds
 transactions).
 */
module Transactions {

  /** A byte. */
  type Byte = bv8

  /** `HashDigest = [u8; 32]`. */
  type Digest = d: seq<Byte> | |d| == 32 witness ZeroDigest

  /** `Nonce = [u8; 16]`. */
  type Nonce = n: seq<Byte> | |n| == 16 witness ZeroNonce

  /** The all-zero digest. */
  const ZeroDigest: seq<Byte> := [0, 0, 0, 0, 0, 0, 0, 0, 0, 0, 0, 0, 0, 0, 0, 0, 0, 0, 0, 0, 0, 0, 0, 0, 0, 0, 0, 0, 0, 0, 0, 0]

  /** The all-zero nonce a fresh block header starts with. */
  const ZeroNonce: seq<Byte> := [0, 0, 0, 0, 0, 0, 0, 0, 0, 0, 0, 0, 0, 0, 0, 0]

  /** A public key as the wallet reports it (`User::get_pub_key`). */
  type PubKey = seq<Byte>

  /** Script opcodes; scripts are carried but never evaluated
      (`validate_script` has no body in the source). */
  datatype OpCode =
    | PushBytes(bytes: seq<Byte>)
    | Dup | Drop | Swap
    | Hash160 | Sha256 | CheckSig | CheckMultiSig
    | Equal | EqualVerify | Verify
    | If | Else | EndIf
    | Op0 | Op1 | Op2 | Op3

  datatype TxInput = TxInput(prev: Digest, outputIndex: nat, script: seq<OpCode>)

  datatype TxOutput = TxOutput(value: nat, script: nat)

  /** A transaction. Equality is structural; the node only ever compares whole
      transactions and reads `inputCount` (zero for a reward transaction). */
  datatype Transaction = Transaction(
    version: nat,
    inputCount: nat,
    inputs: seq<TxInput>,
    outputCount: nat,
    outputs: seq<TxOutput>)

}
