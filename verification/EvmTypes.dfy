/** Values the machine works on, the parameters of one run, and byte-string helpers. */
module EvmTypes {
  import opened Basics

  const TWO_160: nat := 0x1_0000_0000_0000_0000_0000_0000_0000_0000_0000_0000

  type Word = n: nat | n < TWO_256
  type Address = n: nat | n < TWO_160

  /** A code hash. Hashing is symbolic: two codes have equal hashes exactly when they are equal. */
  datatype Hash = NoHash | Keccak(preimage: Bytes)

  const EmptyCodeHash: Hash := Keccak([])

  datatype Account = Account(nonce: nat, balance: Word, code: Bytes, codeHash: Hash)

  datatype Slot = Slot(addr: Address, key: Word)

  datatype Log = Log(addr: Address, topics: seq<Word>, data: Bytes)

  /** The chain rules of one block; any combination of flags is allowed. */
  datatype Rules = Rules(
    homestead: bool, eip150: bool, eip158: bool, byzantium: bool,
    constantinople: bool, petersburg: bool, istanbul: bool, yoloV2: bool)

  /** What a precompile returns: its output, and whether it failed. */
  datatype NativeRun = NativeRun(out: Bytes, failed: bool)

  /**
   * What a transaction runs against and never changes: chain rules, the committed
   * state under the cache, and the operations this model leaves uninterpreted.
   */
  datatype Env = Env(
    rules: Rules,
    noRecursion: bool,
    committedAccounts: map<Address, Account>,
    committedStorage: map<Slot, Word>,
    alu: (Byte, seq<Word>) -> Word,
    sha3: Bytes -> Word,
    blockHash: Word -> Word,
    blockInfo: Byte -> Word,
    createAddress: (Address, nat) -> Address,
    create2Address: (Address, Word, Bytes) -> Address,
    isPrecompile: Address -> bool,
    precompileGas: (Address, Bytes) -> nat,
    precompileRun: (Address, Bytes) -> NativeRun)

  /** Errors a frame or a call can end with. `RefundPanic` is the panic of `SubRefund`. */
  datatype Error =
    | OutOfGas | InvalidOpcode | StackUnderflow | StackOverflow | WriteProtection
    | GasUintOverflow | InvalidJump | InvalidSubroutineEntry | ReturnStackExceeded
    | InvalidRetsub | ReturnDataOutOfBounds | ExecutionReverted
    | Depth | InsufficientBalance | AddressCollision | CodeStoreOutOfGas
    | MaxCodeSizeExceeded | PrecompileFailed | RefundPanic

  function ToAddress(w: Word): Address { w % TWO_160 }

  /** Big-endian value of a byte string, as a word. */
  function WordOfBytes(b: Bytes): Word
  {
    if b == [] then 0 else (WordOfBytes(b[..|b| - 1]) * 256 + b[|b| - 1]) % TWO_256
  }

  function ByteLength(n: nat): nat
  {
    if n == 0 then 0 else 1 + ByteLength(n / 256)
  }

  /** `size` bytes of `data` from `start` on, zero-padded past the end. */
  function GetData(data: Bytes, start: nat, size: nat): (r: Bytes)
    ensures |r| == size
  {
    seq(size, i requires 0 <= i < size => if start + i < |data| then data[start + i] else 0)
  }
}
