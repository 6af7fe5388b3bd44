# web3 core, modelled in Dafny

This project models five parts of the Go library `github.com/laizy/web3` and proves what they promise: the Ethereum Virtual
Machine with its state database and transaction layer, the BLS12-381 field and group arithmetic, the ABI codec, the
log tracker that follows a chain through reorganisations, and the BLAKE2b streaming hash. `dafny verify
dfyconfig.toml` checks all of it.

Every part is built the same way. A set of functions says what the code computes; lemmas about these functions state
the properties; and classes and methods that update their state in place, as the Go code does, are proved to compute
exactly those functions. Where a property fails for some inputs, the exact condition is proved. What the functions
themselves compute is stated once more in terms that do not name them: positions, numbers, accounts and parents, and for
the ABI and BLAKE2b those of the Contract ABI Specification and RFC 7693.

**EVM** (`Evm*.dfy`). `EvmSemantics` is the run loop, the four kinds of call, creation and the opcodes as mutually
recursive functions with gas as the measure. `EvmMachine` is the same in place, over `EvmStateDB` (maps, refund, logs,
snapshot stack) and `EvmContext` (stack, memory, jump analysis caches). The main results: every run ends and no call
gives back more gas than it got; a failed call leaves exactly the state it found; a static frame changes nothing; the
refund counter covers every cleared slot in every reachable state, so subtracting a refund never panics; net metering of
SSTORE is path independent; the stack, the memory and the program counter are safe at every iteration; a transaction
keeps the sum of balances, self-destructs aside, exactly when its sender pays for the gas in full: with a balance that
does not cover the gas limit the number to be taken is overwritten by the gas it buys, and ether appears. `EvmCalls`
says whose code a message runs, as whom, and what a creation leaves behind; `EvmOpcodes`, `EvmMemoryOps`, `EvmStateOps`
and `EvmFrameOps` say for each opcode what one step pushes, writes, sends or ends with; `EvmSchedule` gives the table and
the prices in numbers and proves that an opcode is paid for exactly when the frame affords them; `EvmPayments` says who
pays for a transaction and who is paid, account by account.

**BLS12-381** (`Bls*.dfy`). The six-limb Montgomery multiplication loses no carry and returns the unique reduced result
for a reduced second operand and any 384-bit first one, which makes the unreduced operands of the quadratic extension's
squaring safe; the almost-inverse is an inverse exactly for numbers coprime to the modulus and never takes its
fallbacks for them; the separate squaring routine equals multiplication exactly when no column of its schoolbook sum
drops a carry, with a field element for which it does not; multi-exponentiation is the sum of the multiples for every
window width.

**ABI** (`Abi*.dfy`). Encoding followed by any suffix decodes to the same value, for every well-formed type. Encoding a
decoded value again gives back the bytes for all values of a type if and only if its names are in lower case. Apart from
the decoder, `AbiWire` proves the bytes on the wire to be those of the Contract ABI Specification: words, lengths, heads,
offsets and tails; and it says of every input what the decoder reads from it.

**Tracker** (`Tracker*.dfy`). After every successful step each log store equals the logs collected afresh from the
blocks of the current chain, and the window of blocks is linked and short even after failed steps. A step succeeds
exactly when an ancestor of the new block within reach has its parent in the window and the logs of all blocks to be
added are available. Catching up in batches ends exactly when it never comes to a batch of one block that the node
refuses as too much.

**BLAKE2b** (`Blake2*.dfy`). Any chunking gives the digest of section 3.3 of RFC 7693, block by block and byte by byte,
and any way of reading the extendable output gives the same stream.

One place where the documentation and the code differ, and the model follows the code: the comment on `NewXOF` allows
keys of up to 32 bytes, the check allows 64. The encoder looks tuple fields up under lower-case names while the decoder
stores them under the declared ones. For a type with another name there are values that are refused, or encoded with the
wrong component, once they were decoded; a value that holds no such tuple, as an empty slice, still goes through.

## Model

| member | source | states |
|---|---|---|
| `EvmSemantics.Step` | evm/interpreter.go:206-289 | one iteration of the run loop; an iteration that goes on has strictly less gas, one that ends has no more than it started with |
| `EvmSemantics.Charge` | evm/interpreter.go:213-265 | stack bounds, write protection, constant and dynamic gas, memory growth, in that order; a paid opcode that does not halt costs at least one unit, the gas handed to a call plus what is left stays strictly below what the frame had, and afterwards the store covers every range the opcode names |
| `EvmSemantics.Settle` | evm/interpreter.go:246-265 | dynamic gas and growth; only SSTORE and SELFDESTRUCT touch the refund, only SSTORE can meet the refund panic |
| `EvmSemantics.Execute` | evm/interpreter.go:268-289 | dispatch of one opcode; every continuation is poorer than the frame was before the opcode |
| `EvmSemantics.Loop` | evm/interpreter.go:206-292 | the loop ends for every code and gas, and returns no more gas than it was given |
| `EvmSemantics.Run` | evm/interpreter.go:128-292 | a frame returns no more gas than it was given, also with empty code |
| `EvmSemantics.CallMessage` | evm/evm.go:188-383 | all four call kinds: depth, balance, snapshot, transfer, code, revert; never returns more gas than given |
| `EvmSemantics.Deliver` | evm/evm.go:223-251 | what is delivered, precompile, code or nothing, returns no more gas than given; whose code runs and what comes of it is stated by EvmCalls.CalleeRuns and the lemmas beside it |
| `EvmSemantics.Precompiled` | evm/contracts.go:132-140 | a precompile leaves at most the supplied gas; it fails for want of gas or by itself, and then still hands over its output |
| `EvmSemantics.CreateContract` | evm/evm.go:398-471 | nonce, collision, endowment, initialisation and deposit; never returns more gas than given |
| `EvmSemantics.Initialise` | evm/evm.go:431-471 | the initialisation frame and what becomes of its state and gas |
| `EvmSemantics.Deploy` | evm/evm.go:437-471 | code size limit and deposit gas |
| `EvmSemantics.CallOp` | evm/instructions.go:676-799 | a call opcode gives back to the frame at most what the child was given |
| `EvmSemantics.CreateOp` | evm/instructions.go:599-674 | a create opcode gives back to the frame at most what the child was given |
| `EvmSemantics.MemoryReadsBack` | evm/memory.go:38-99 | what is written is read back, a range apart from it reads as before, and growing changes no byte and adds zeros |
| `EvmGas.DynamicPrice` | evm/gas_table.go:31-443 | every metered opcode costs something; a call costs at least what it hands over plus the value transfer that pays the stipend |
| `EvmTable.Lookup` | evm/jump_table.go:69-1025 | the instruction set of every fork; pops and pushes agree with the groups the loop treats apart |
| `EvmFrames.OperandRange` | evm/memory_table.go:20-50 | a memory grown to what the opcode needs holds the range that hashing, storing and copying name |
| `EvmFrames.CallRanges` | evm/memory_table.go:60-102 | it holds both the input and the output range of a call opcode |
| `EvmFrames.CreateRange` | evm/memory_table.go:52-58 | it holds the initialisation code of a create opcode |
| `EvmCalls.CalleeRuns` | evm/evm.go:188-383 | for each of the four kinds, a message to an account with code is the iteration of steps from a blank frame with the code of the target, its input and gas, and the self, caller and value that the kind prescribes, one level deeper and read-only if static; a revert or an error gives the state at entry |
| `EvmCalls.Delivery` | evm/evm.go:223-251 | an accepted message to an account that is no precompile is a run of the code of the target from the prepared state |
| `EvmCalls.CodelessCallee` | evm/evm.go:229-235 | a target without code gives the prepared state, all the gas and no output |
| `EvmCalls.StoppingCallee` | evm/evm.go:228-238 | a target whose code starts with STOP gives the prepared state, all the gas and no output |
| `EvmCalls.UndefinedCallee` | evm/evm.go:236-251 | a target whose first opcode the rules do not define gives an invalid opcode, no gas and the state at entry |
| `EvmCalls.PrecompiledCallee` | evm/evm.go:224-251 | a precompile is paid its price and hands over its output; for want of gas or by failing itself it takes all the gas and leaves the state at entry |
| `EvmCalls.NotAccepted` | evm/evm.go:188-213 | depth and balance are errors that cost nothing; a call of no value to an account that does not exist does nothing |
| `EvmCalls.Prepared` | evm/evm.go:188-383 | before the callee runs, a call takes its value from the sender and gives it to the target, account by account; the other kinds move no balance, and nothing else changes |
| `EvmCalls.Transferred` | executor/evm.go:57-60 | a covered transfer takes from one account, gives to another and touches no third |
| `EvmCalls.CreationRuns` | evm/evm.go:398-471 | an admitted creation is the iteration of steps from a blank frame with the given code, at the new address, endowed with the value; revert, error, size limit and deposit decide what is reported, and 200 gas is paid for each byte of code |
| `EvmCalls.CodeInPlace` | evm/evm.go:444-448 | a creation that succeeds leaves the code it returned, with its hash, at the address it reports |
| `EvmCalls.EmptyCreation` | evm/evm.go:398-471 | without initialisation code the account is endowed, has no code, and all the gas comes back |
| `EvmCalls.CreationSwitchedOff` | evm/evm.go:427-429 | where nested frames are switched off the account is endowed and nothing runs |
| `EvmCalls.NotAdmitted` | evm/evm.go:399-413 | depth and balance cost nothing; a collision takes all the gas and the nonce of the creator |
| `EvmCalls.TakenIsCollision` | evm/evm.go:409-413 | the address is taken exactly when it has a nonce or code |
| `EvmCalls.Endowed` | evm/evm.go:414-420 | the value moves, account by account, and since EIP-158 the new account starts with nonce one |
| `EvmCalls.NonceAdvanced` | evm/evm.go:407-408 | only the nonce of the creator differs |
| `EvmOpcodes.EnvironmentPushes` | evm/instructions.go:256-597 | ADDRESS, CALLER, CALLVALUE, the sizes, SELFBALANCE, PC, MSIZE, GAS and block data push what their names say |
| `EvmOpcodes.AluComputes` | evm/instructions.go:29-234 | arithmetic, comparison and bitwise opcodes are given their operands from the top down and push one word |
| `EvmOpcodes.PushPushes` | evm/instructions.go:852-888 | PUSHn pushes the number that the n code bytes behind it make, zero beyond the end, and goes on behind them |
| `EvmOpcodes.StackOps` | evm/instructions.go:891-905 | DUPn copies the n-th item from the top, SWAPn exchanges the top with the item n below it, POP drops the top |
| `EvmOpcodes.JumpsGo` | evm/instructions.go:526-582 | jumps and subroutine opcodes go where the target is a marker that is no data byte, fall through or fail, each in its exact case |
| `EvmOpcodes.PaidMemory` | evm/interpreter.go:226-265 | paying changes gas and the size of the memory only; the memory holds what the opcode names and reads as before |
| `EvmMemoryOps.MloadPushes` | evm/instructions.go:490-495 | MLOAD pushes the number that 32 bytes of memory make, zero beyond the end |
| `EvmMemoryOps.CallDataPushes` | evm/instructions.go:283-292 | CALLDATALOAD pushes the number that 32 bytes of the input make, zero beyond the end |
| `EvmMemoryOps.MemoryWrites` | evm/instructions.go:299-508 | MSTORE, MSTORE8 and the four copies write the word, its low byte, or the window of input, code, foreign code or return data that they name, at their place, and keep every other byte; RETURNDATACOPY fails exactly when it reaches beyond the data |
| `EvmMemoryOps.StoredWordLoads` | evm/instructions.go:490-502 | after MSTORE of v, MLOAD from the same place gives v; from a place apart it gives what it gave before |
| `EvmMemoryOps.Sha3Pushes` | evm/instructions.go:236-254 | SHA3 pushes the hash of the range of memory it names |
| `EvmStateOps.AccountQueries` | evm/instructions.go:261-456 | BALANCE, EXTCODESIZE, EXTCODEHASH and BLOCKHASH answer about the account or number on top |
| `EvmStateOps.TransferSeen` | evm/instructions.go:261-266 | seen by BALANCE, a call to an account without code moves the balance of the sender and of the target by its value, and no other |
| `EvmStateOps.SloadPushes` | evm/instructions.go:510-516 | SLOAD pushes the current value of the slot of the executing account |
| `EvmStateOps.UnwrittenLoads` | evm/instructions.go:510-516 | a slot the transaction has not written loads as it was committed, or as zero |
| `EvmStateOps.SstoreStep` | evm/instructions.go:518-524 | SSTORE writes its value to its slot, and changes no other and nothing but the refund beside it |
| `EvmStateOps.StoredValueLoads` | evm/instructions.go:510-524 | after a step at SSTORE with (k, v), a step at SLOAD of k in the same contract pushes v, and SLOAD of any other slot pushes what it pushed before |
| `EvmStateOps.LogAppends` | evm/instructions.go:830-849 | LOGn appends one log of the executing account with its n topics in order and a range of memory |
| `EvmStateOps.FramesEnd` | evm/instructions.go:801-817 | STOP ends with nothing, RETURN and REVERT with the range of memory they name, all with the gas that was not paid |
| `EvmStateOps.SelfdestructPays` | evm/instructions.go:819-825 | SELFDESTRUCT gives the whole balance to the account it names and leaves none, marks the contract and ends the frame; an heir that is the contract itself gets nothing |
| `EvmFrameOps.CallsReturn` | evm/instructions.go:676-799 | a paid call opcode sends the message of its kind, with its operands, input range, gas set aside and stipend; then 1 or 0 is on the stack, the output in memory as far as it fits and as return data, and the gas that came back is added |
| `EvmFrameOps.CreatesReturn` | evm/instructions.go:599-674 | a paid create opcode runs its range of memory, with its value, on all but a 64th of the gas since EIP-150, at the address for the nonce, or for salt and code; then the address or 0 is on the stack and only revert data is return data |
| `EvmSchedule.TableInNumbers` | evm/jump_table.go:69-1025 | each fork has exactly the opcodes introduced up to it, with the constant gas, items taken and items given written out as numbers |
| `EvmSchedule.PaysExactly` | evm/interpreter.go:206-265 | for every opcode that starts no call: it is paid for if and only if the rules define it, the stack has room, it may write, its ranges are below the memory limit, an SSTORE finds its sentry gas and refund, and the gas covers constant part, memory growth and the rate written out in numbers; then exactly that is paid |
| `EvmSchedule.PaysCallExactly` | evm/gas_table.go:330-420 | the same for call opcodes, with 9000 for moving value, 25000 for a new account, and the gas set aside |
| `EvmSchedule.FailsExactly` | evm/interpreter.go:206-265 | an opcode that is not paid for ends the frame with the error of the first check it does not pass: undefined, too few items, too many, write protection, gas, 64-bit overflow, missing refund |
| `EvmSchedule.RefundMoves` | evm/gas_table.go:98-443 | a step at SSTORE moves the refund counter by exactly what is metered, the first SELFDESTRUCT of a contract by 24000 |
| `EvmSchedule.PriceInNumbers` | evm/gas_table.go:67-443 | the dynamic price of every opcode that starts no call |
| `EvmSchedule.DataPriceInNumbers` | evm/gas_table.go:67-302 | 3 per word copied, 6 per word hashed, 375 per log and topic and 8 per byte logged |
| `EvmSchedule.NeededInNumbers` | evm/memory_table.go:20-114 | the memory an opcode needs is the end of the last range it names, if it fits 64 bits |
| `EvmSchedule.GrowthInNumbers` | evm/gas_table.go:31-58 | growing to w words costs 3w + w*w/512 less what was paid, and nothing reaches beyond the limit |
| `EvmSchedule.MeteringInNumbers` | evm/gas_table.go:98-220 | the charge and refunds of SSTORE case by case, under each of its three meterings |
| `EvmPayments.Settled` | executor/state_transition.go:282-347 | for every applied transaction, relative to the state its message left, the balance of each account moves by the price of the gas left if it is the sender and by the price of the gas used if it is the fee receiver, and by nothing otherwise |
| `EvmPayments.PlainTransferSettled` | executor/state_transition.go:282-347 | a plain transfer costs the sender exactly value and price of the gas used, gives the target the value and the fee receiver the price of the gas used, and moves no other balance |
| `EvmPayments.AppliedExactly` | executor/state_transition.go:253-267 | a transaction is applied if and only if its nonce is right; too high and too low are told apart |
| `EvmPayments.GasBought` | executor/state_transition.go:240-251 | what the gas costs is taken from the sender and from no one else |
| `EvmPayments.MostGasBought` | executor/state_transition.go:240-251 | what is bought is the most gas, up to the limit, that the balance pays for; it is paid at its price if the limit is covered and at one unit each otherwise |
| `EvmPayments.UsedGas` | executor/state_transition.go:335-352 | the gas used is what the message spent less the refund counter, at most half |
| `EvmPayments.MayNotSend` | executor/state_transition.go:308-327 | intrinsic gas that is not covered uses all the gas, a value that is not covered leaves the rest; both only advance the nonce |
| `EvmPayments.SendsCall` | executor/state_transition.go:320-324 | with a target the message is a call from the sender with data, value and the gas beyond the intrinsic, after the nonce |
| `EvmPayments.SendsCreation` | executor/state_transition.go:318-319 | without a target it is a creation from the data at the address for the sender and its nonce |
| `EvmPayments.TransferRun` | executor/state_transition.go:282-327 | the message of a plain transfer moves the value and uses the intrinsic gas |
| `EvmPayments.IntrinsicByByte` | executor/state_transition.go:169-206 | 21000, or 53000 for a creation since Homestead, and 4 for a zero byte, 68 or 16 for another |
| `EvmTheorems.CallGasRule` | evm/gas.go:39-55 | for every call opcode under EIP-150 that passes the checks before it: it is paid for if and only if the gas left after the constant part covers memory growth and surcharges; then the callee gets the smaller of the request and all but a 64th of what is left; otherwise, though the 64-bit subtraction wraps, the opcode runs out of gas |
| `EvmTheorems.CallsCharged` | evm/interpreter.go:246-265 | the same as a verdict on charging any opcode |
| `EvmTheorems.ChildStartsPoorer` | evm/instructions.go:676-799 | every child frame starts with strictly less gas than its parent had before the opcode, stipend included |
| `EvmTheorems.CallAtomic` | evm/evm.go:188-383 | a call of any kind that returns an error leaves exactly the world it found, through all nested frames |
| `EvmTheorems.CreateAtomic` | evm/evm.go:398-471 | a creation that returns an error changes only the creator's nonce; the exception is the unpaid deposit before Homestead |
| `EvmTheorems.StaticPurity` | evm/evm.go:338-383 | under Byzantium rules no balance, nonce, code, slot, log, refund or self-destruct mark changes from entry to exit of a static frame, through all nested frames |
| `EvmTheorems.EveryIterationSound` | evm/interpreter.go:206-289 | after any number of iterations of any frame cleared slots are backed by the refund counter, no ether was created and the refund panic did not occur |
| `EvmRuns.StepKeeps` | evm/interpreter.go:206-289 | one iteration keeps soundness, extends the logs, never raises the supply, and changes nothing when frozen |
| `EvmRuns.ExecuteKeeps` | evm/instructions.go:518-849 | the same for one opcode after it was charged |
| `EvmRuns.LoopKeeps` | evm/interpreter.go:206-292 | the same for a whole frame |
| `EvmRuns.RunKeeps` | evm/interpreter.go:128-292 | the same for a frame with its read-only flag |
| `EvmRuns.DeliverKeeps` | evm/evm.go:223-251 | the same for the delivery of a message |
| `EvmRuns.CallKeeps` | evm/evm.go:188-383 | the same for every kind of call, to any depth |
| `EvmRuns.InitialiseKeeps` | evm/evm.go:431-471 | the same for an initialisation frame |
| `EvmRuns.CreateKeeps` | evm/evm.go:398-471 | the same for a creation |
| `EvmRuns.CallOpKeeps` | evm/instructions.go:676-799 | the same for a call opcode |
| `EvmRuns.CreateOpKeeps` | evm/instructions.go:599-674 | the same for a create opcode |
| `EvmRuns.TransferKept` | executor/evm.go:57-60 | a covered transfer moves ether without creating or destroying any |
| `EvmRuns.SstoreKept` | evm/gas_table.go:98-220 | charging and writing a slot keep cleared slots backed |
| `EvmRuns.SstoreCharged` | evm/gas_table.go:98-220 | charging for SSTORE moves the refund counter as metered, and does not panic when what it takes back is there |
| `EvmRuns.MeteredWriteKept` | evm/gas_table.go:98-220 | a metered write finds its refund and keeps the world sound |
| `EvmRuns.SelfdestructKept` | evm/instructions.go:819-825 | a self-destruct never raises the supply |
| `EvmRuns.SelfdestructChargeKept` | evm/gas_table.go:422-443 | its refund keeps cleared slots backed |
| `EvmFrames.EveryIterationSafe` | evm/interpreter.go:206-289 | after any number of iterations the stack is within 1024 items, the store is whole words inside the limit with lastGasCost equal to 3w + w*w/512, every fetched position is an instruction boundary or past the code, and each iteration cost at least one unit |
| `EvmFrames.StepSafe` | evm/interpreter.go:206-289 | one iteration keeps a frame safe |
| `EvmFrames.ChargeSafe` | evm/interpreter.go:213-265 | charging keeps a frame safe |
| `EvmFrames.ExecuteSafe` | evm/interpreter.go:268-289 | executing keeps a frame safe and its memory the size it was paid for |
| `EvmFrames.LocalSafe` | evm/instructions.go:29-597 | the same for opcodes inside the frame |
| `EvmFrames.SystemSafe` | evm/instructions.go:599-849 | the same for calls, creations, SSTORE and logs |
| `EvmFrames.FlowPcSafe` | evm/instructions.go:526-582 | JUMP, JUMPI, JUMPSUB, RETURNSUB and PUSHn lead to instruction boundaries, the return stack included |
| `EvmFrames.GrowthExact` | evm/gas_table.go:31-58 | a growth fee is exactly the difference of the totals, without 64-bit overflow |
| `EvmFrames.ChargeFee` | evm/gas_table.go:31-58 | the fee is part of the price the frame pays |
| `EvmFrames.FeesTelescope` | evm/gas_table.go:31-58 | over any number of iterations the memory fees add up to the fee of the final size less that of the first |
| `EvmFrames.MemoryFeeBounds` | evm/gas_table.go:31-58 | no 64-bit intermediate of the fee overflows below the memory limit |
| `EvmFrames.NewFrameSafe` | evm/evm.go:229-238 | every frame a call or creation starts is safe |
| `EvmFrames.LoopIsIteration` | evm/interpreter.go:206-292 | the loop is its iterations carried to the end, at most one more than the gas |
| `EvmCode.NextIsBoundary` | evm/instructions.go:852-888 | the instruction after a boundary is a boundary |
| `EvmRefund.WriteKeepsBacked` | evm/gas_table.go:122-165 | the refund a write takes back is there, and refund is at least 15000 per cleared slot afterwards |
| `EvmRefund.MeterShare` | evm/gas_table.go:180-220 | a write takes back at most the share its slot holds and pays for the share it leaves |
| `EvmRefund.ClearedCount` | evm/gas_table.go:122-165 | how a write changes the number of cleared slots |
| `EvmRefund.MeterPotential` | evm/gas_table.go:136-164 | charge minus net refund of one write is the base rate plus a change of potential |
| `EvmRefund.WriteSeen` | evm/gas_table.go:180-220 | a write to any slot, as one slot sees it: its value, and charge less gain of the refund counter as a change of potential |
| `EvmRefund.PathIndependence` | evm/gas_table.go:180-220 | for every sequence of writes to any slots, charge less gain of the refund counter over the n writes that hit a slot is 800n (200n under EIP-1283) plus a function of its committed, first and last value alone |
| `EvmRefund.SameEndsSameCost` | evm/gas_table.go:180-220 | two transactions that write a slot equally often between the same values pay the same for it |
| `EvmSupply.TransferSupply` | executor/evm.go:57-60 | a transfer keeps the sum of balances |
| `EvmSupply.SuicideSupply` | evm/storage/statedb.go:313-324 | a self-destruct never raises the sum of balances |
| `EvmSupply.SumPut` | evm/storage/statedb.go:259-266 | writing one record moves the sum by the change of its balance |
| `EvmAnalysis.CodeBitmap` | evm/analysis.go:39-63 | the packed bit vector marks exactly the positions the sequential scan does not reach, for every position of every code, without leaving the buffer |
| `EvmAnalysis.MarkData` | evm/analysis.go:44-60 | marks exactly the data bytes, eight at a time and then singly |
| `EvmAnalysis.Set` | evm/analysis.go:25-27 | sets one bit |
| `EvmAnalysis.Set8` | evm/analysis.go:28-31 | sets exactly the eight bits from a position on |
| `EvmContext.CallCtx.IsCode` | evm/contract.go:115-144 | the cached answer is that of a fresh analysis, whether from the frame, the shared cache by hash or computed now |
| `EvmContext.CallCtx.ValidJumpTo` | evm/contract.go:86-111 | a destination is accepted exactly when it is an instruction of the wanted kind |
| `EvmContext.CallCtx.UseGas` | evm/contract.go:181-187 | pays or refuses, never below zero |
| `EvmContext.CallCtx.constructor` | evm/contract.go:67-84 | a new frame |
| `EvmContext.CallCtx.Push` | evm/stack.go:54-57 | the item goes on top and nothing below changes |
| `EvmContext.CallCtx.Pop` | evm/stack.go:63-67 | returns the top and leaves the rest |
| `EvmContext.CallCtx.DupItem` | evm/stack.go:77-79 | duplicate the n-th item |
| `EvmContext.CallCtx.SwapItem` | evm/stack.go:73-75 | exchange the top with the n-th item |
| `EvmContext.CallCtx.ResizeMemory` | evm/memory.go:66-70 | growth as the reference |
| `EvmContext.CallCtx.SetMemory` | evm/memory.go:38-63 | write as the reference |
| `EvmContext.CallCtx.GetMemory` | evm/memory.go:73-99 | read as the reference |
| `EvmStateDB.StateDB.TakeSnapshot` | evm/storage/statedb.go:375-392 | the index is the stack height, and the saved world is the current one |
| `EvmStateDB.StateDB.RevertToSnapshot` | evm/storage/statedb.go:394-406 | restores exactly the world that was saved under the index and drops it and all later ones; a missing index is reported |
| `EvmStateDB.StateDB.PutEthAccount` | evm/storage/statedb.go:259-266 | writes or drops a record as the reference |
| `EvmStateDB.StateDB.GetAccount` | evm/storage/statedb.go:244-280 | cache over committed state |
| `EvmStateDB.StateDB.AddBalance` | evm/storage/statedb.go:416-422 | as the reference, modulo 2^256 |
| `EvmStateDB.StateDB.SubBalance` | evm/storage/statedb.go:408-414 | as the reference, modulo 2^256 |
| `EvmStateDB.StateDB.SetNonce` | evm/storage/statedb.go:286-290 | as the reference |
| `EvmStateDB.StateDB.SetCode` | evm/storage/statedb.go:300-306 | as the reference, with the hash |
| `EvmStateDB.StateDB.SetState` | evm/storage/statedb.go:197-199 | as the reference |
| `EvmStateDB.StateDB.AddRefund` | evm/storage/statedb.go:162-164 | the counter grows by exactly the amount |
| `EvmStateDB.StateDB.SubRefund` | evm/storage/statedb.go:168-174 | subtracts, or reports the panic exactly when the counter is too small |
| `EvmStateDB.StateDB.AddLog` | evm/storage/statedb.go:359-361 | the log goes to the end |
| `EvmStateDB.StateDB.Suicide` | evm/storage/statedb.go:313-324 | marks and empties an account, unless the record is empty |
| `EvmMachine.EVM.Call` | evm/evm.go:188-252 | the method in place computes the reference call: state, gas, output and error; an error leaves the database as it was found; the snapshots below stay as they were |
| `EvmMachine.EVM.CallCode` | evm/evm.go:261-297 | the same for the code of another account in the caller's context |
| `EvmMachine.EVM.DelegateCall` | evm/evm.go:304-332 | the same as the caller's own caller, without value |
| `EvmMachine.EVM.StaticCall` | evm/evm.go:338-383 | the same, with the read-only flag restored |
| `EvmMachine.EVM.Create` | evm/evm.go:398-471 | the method in place computes the reference creation; an error leaves the database as it was found but for the creator's nonce, the unpaid deposit before Homestead excepted |
| `EvmMachine.EVM.RunInit` | evm/evm.go:424-471 | the initialisation frame and its outcome |
| `EvmMachine.EVM.Deposit` | evm/evm.go:437-471 | code deposit and revert |
| `EvmMachine.EVM.EndowAccount` | evm/evm.go:418-430 | the new account and its endowment |
| `EvmMachine.EVM.DeliverMessage` | evm/evm.go:223-251 | precompile or code, revert and gas rule |
| `EvmMachine.EVM.Undo` | evm/evm.go:241-250 | reverting restores the world saved at entry, and takes the gas unless the code reverted |
| `EvmMachine.EVM.RunPrecompiled` | evm/contracts.go:132-140 | as the reference |
| `EvmMachine.EVM.Run` | evm/interpreter.go:128-292 | a frame in place is the reference frame; depth and read-only flag come back |
| `EvmMachine.EVM.RunLoop` | evm/interpreter.go:206-292 | the loop in place is the reference loop |
| `EvmMachine.EVM.Step` | evm/interpreter.go:206-289 | an iteration in place is the reference step |
| `EvmMachine.EVM.Execute` | evm/interpreter.go:268-289 | dispatch in place |
| `EvmMachine.EVM.ExecuteAlone` | evm/interpreter.go:268-289 | opcodes that start no frame |
| `EvmMachine.EVM.ChargeGas` | evm/interpreter.go:213-265 | charging in place; a call opcode whose base cost is not covered runs out of gas although 64-bit sums may overflow |
| `EvmMachine.EVM.ChargeDynamic` | evm/interpreter.go:246-265 | dynamic part in place |
| `EvmMachine.EVM.DynamicGas` | evm/gas_table.go:31-443 | prices in 64-bit arithmetic; an overflow is reported only when the exact price leaves 64 bits |
| `EvmMachine.EVM.MemoryGasCost` | evm/gas_table.go:31-58 | growth fee in 64-bit arithmetic |
| `EvmMachine.EVM.GasSStore` | evm/gas_table.go:98-220 | price and refund of SSTORE in place |
| `EvmMachine.EVM.GasSurcharge` | evm/gas_table.go:331-345 | what a new account and moved value cost |
| `EvmMachine.EVM.GasCall` | evm/gas_table.go:330-420 | price of the call opcodes; sets the gas handed over |
| `EvmMachine.EVM.GasData` | evm/gas_table.go:67-89 | price of copies, hashes and logs |
| `EvmMachine.EVM.GasSelfdestruct` | evm/gas_table.go:422-443 | price and refund of SELFDESTRUCT |
| `EvmMachine.EVM.ExecLocal` | evm/instructions.go:29-597 | opcodes inside the frame |
| `EvmMachine.EVM.ExecMemory` | evm/instructions.go:236-508 | opcodes that read or write memory |
| `EvmMachine.EVM.ExecWord` | evm/instructions.go:236-508 | hashing and storing |
| `EvmMachine.EVM.ExecCopy` | evm/instructions.go:299-385 | copying from input, code, other code and return data |
| `EvmMachine.EVM.CopyToMemory` | evm/instructions.go:299-390 | copies with padding, and the bounds error of RETURNDATACOPY |
| `EvmMachine.EVM.ExecJump` | evm/instructions.go:526-582 | jumps and subroutines |
| `EvmMachine.EVM.ExecStack` | evm/instructions.go:852-906 | push, dup and swap |
| `EvmMachine.EVM.ExecStore` | evm/instructions.go:518-524 | SSTORE and logs |
| `EvmMachine.EVM.ExecHalt` | evm/instructions.go:801-825 | STOP, RETURN, REVERT and SELFDESTRUCT |
| `EvmMachine.EVM.OpCall` | evm/instructions.go:676-799 | call opcodes in place |
| `EvmMachine.EVM.TakeCall` | evm/instructions.go:676-799 | their arguments |
| `EvmMachine.EVM.Resume` | evm/instructions.go:694-711 | what the caller sees of a finished call |
| `EvmMachine.EVM.OpCreate` | evm/instructions.go:599-674 | create opcodes in place |
| `EvmMachine.EVM.TakeCreate` | evm/instructions.go:599-674 | their arguments |
| `EvmMachine.EVM.ResumeCreate` | evm/instructions.go:617-638 | what the creator sees of a finished creation |
| `EvmMachine.EVM.MoveValue` | executor/evm.go:57-60 | the transfer |
| `EvmTransaction.TransitionConserves` | executor/state_transition.go:240-333 | without self-destructs the sum of balances is kept if and only if the balance covers the gas limit, the price is one, or the balance buys no gas; in those cases it is never raised, self-destructs or not |
| `EvmTransaction.TransitionSupply` | executor/state_transition.go:282-333 | for every transaction: the sum of balances changes by what was not paid for when gas was bought, less what self-destructs destroy; the gas used is at most the gas bought; soundness and earlier logs are kept; the refund panic is never met |
| `EvmTransaction.ShortBalanceCreates` | executor/state_transition.go:243-250 | a balance that covers some of the gas at a price above one, but less than the intrinsic gas, always raises the sum of balances |
| `EvmTransaction.PaidExactly` | executor/state_transition.go:240-251 | gas is paid for in full exactly when the balance covers the limit, the price is one, or no gas is bought |
| `EvmTransaction.Buy` | executor/state_transition.go:240-251 | the gas bought is at most the limit and is worth at most the balance; what is taken is at most its worth |
| `EvmTransaction.GasAfterRefund` | executor/state_transition.go:335-346 | the refund is at most half of the gas used and at most the counter |
| `EvmTransaction.Perform` | executor/state_transition.go:293-325 | the run leaves at most the gas that was bought |
| `EvmTransaction.PerformKept` | executor/state_transition.go:293-325 | the run keeps soundness and never raises the supply |
| `EvmTransaction.CountIntrinsicGas` | executor/state_transition.go:170-206 | intrinsic gas by counting bytes |
| `EvmTransaction.StateTransition.BuyGas` | executor/state_transition.go:240-251 | pays for the gas up front as far as the balance goes, and takes what the purchase says |
| `EvmTransaction.StateTransition.RefundGas` | executor/state_transition.go:335-351 | adds the refund and hands back its price |
| `EvmTransaction.StateTransition.RunMessage` | executor/state_transition.go:293-325 | intrinsic gas, balance check, call or creation, as the reference |
| `EvmTransaction.StateTransition.TransitionDb` | executor/state_transition.go:282-333 | the method in place computes the reference transition |
| `BlsMontgomery.Round` | crypto/bls12381/arithmetic_fallback.go:247-331 | one round in place; the output may be the accumulator or the operand |
| `BlsMontgomery.RoundCorrect` | crypto/bls12381/arithmetic_fallback.go:247-331 | a round adds v*y and a multiple of the modulus that clears the low word, shifts that word out, loses no carry, and stays below y + p |
| `BlsMontgomery.AccBound` | crypto/bls12381/arithmetic_fallback.go:227-331 | every intermediate stays below y + p |
| `BlsMontgomery.AccCorrect` | crypto/bls12381/arithmetic_fallback.go:227-331 | after six rounds 2^384 times the accumulator is x*y plus a multiple of p, exactly |
| `BlsLimbs.Madd0` | crypto/bls12381/arithmetic_fallback.go:477-484 | the high word of a*b + c |
| `BlsLimbs.Madd1` | crypto/bls12381/arithmetic_fallback.go:486-493 | both words of a*b + c |
| `BlsLimbs.Madd2` | crypto/bls12381/arithmetic_fallback.go:495-503 | both words of a*b + c + d |
| `BlsLimbs.Madd3` | crypto/bls12381/arithmetic_fallback.go:558-566 | both words of a*b + c + d + e*2^64, exact whenever the sum fits two words |
| `BlsField.Mul` | crypto/bls12381/arithmetic_fallback.go:227-344 | for y < p and any 384-bit x, also when the output is an operand, the result is the Montgomery product |
| `BlsModular.MontMul` | crypto/bls12381/arithmetic_fallback.go:227-344 | a reduced z with z*2^384 congruent to a*b |
| `BlsModular.MontUnique` | crypto/bls12381/arithmetic_fallback.go:227-344 | it is the only one |
| `BlsField.Ladd` | crypto/bls12381/arithmetic_fallback.go:88-106 | limb-wise sum in place |
| `BlsField.AddLimbs` | crypto/bls12381/arithmetic_fallback.go:88-106 | sum and carry are exact |
| `BlsField.Lsub` | crypto/bls12381/arithmetic_fallback.go:203-211 | limb-wise difference in place |
| `BlsField.SubLimbs` | crypto/bls12381/arithmetic_fallback.go:203-211 | difference and borrow are exact |
| `BlsField.Reduce` | crypto/bls12381/arithmetic_fallback.go:333-343 | one conditional subtraction of the modulus |
| `BlsField.BelowModulusCorrect` | crypto/bls12381/arithmetic_fallback.go:333-335 | the nested comparison is the order of the numbers |
| `BlsField.Add` | crypto/bls12381/arithmetic_fallback.go:42-152 | the reduced sum; doubling is the case of equal operands |
| `BlsField.Sub` | crypto/bls12381/arithmetic_fallback.go:165-201 | the reduced difference |
| `BlsField.Neg` | crypto/bls12381/arithmetic_fallback.go:213-225 | the reduced negation, zero for zero |
| `BlsConvert.ToMont` | crypto/bls12381/fp.go:76-78 | scales a number by 2^384 |
| `BlsConvert.FromMont` | crypto/bls12381/fp.go:80-82 | the number a Montgomery residue stands for |
| `BlsConvert.RoundTrip` | crypto/bls12381/fp.go:76-82 | each conversion undoes the other on reduced numbers |
| `BlsConvert.Exp` | crypto/bls12381/fp.go:84-93 | square and multiply over the exponent's bits gives the power, in Montgomery form and in what it stands for |
| `BlsConvert.MontPowAdd` | crypto/bls12381/fp.go:84-93 | powers add in the exponent |
| `BlsConvert.PowMeaning` | crypto/bls12381/fp.go:84-93 | a Montgomery power stands for the power |
| `BlsFp2.Fp2.Mul` | crypto/bls12381/fp2.go:124-134 | the three-multiplication product through shared temporaries is the schoolbook product, also when the output is an operand |
| `BlsFp2.Fp2.Square` | crypto/bls12381/fp2.go:148-155 | squaring through unreduced operands is the product of the element with itself |
| `BlsFp2.Karatsuba` | crypto/bls12381/fp2.go:124-134 | the cross term from one multiplication |
| `BlsFp2.LazySquare` | crypto/bls12381/fp2.go:148-155 | both halves of the square from unreduced sums |
| `BlsFp2.Fp2Meaning` | crypto/bls12381/fp2.go:124-155 | the pair product is complex multiplication of what the pairs stand for |
| `BlsFp2.MeaningOfProduct` | crypto/bls12381/arithmetic_fallback.go:227-344 | a Montgomery product stands for the product |
| `BlsFp2.MeaningOfSum` | crypto/bls12381/arithmetic_fallback.go:42-201 | sums and differences stand for sums and differences |
| `BlsInverse.Inverse` | crypto/bls12381/fp.go:95-154 | for a reduced e the result times e is one in Montgomery form, and congruent to 2^768, exactly when e and p are coprime; zero gives zero; the output may be the operand |
| `BlsInverse.PhaseOneLoop` | crypto/bls12381/fp.go:104-131 | the first loop always finds its end, within 762 passes, and no bit is shifted out of r |
| `BlsInverse.PhaseOneStep` | crypto/bls12381/fp.go:112-130 | one pass on limbs is one step on numbers |
| `BlsInverse.PhaseTwoLoop` | crypto/bls12381/fp.go:149-152 | doublings up to 768 bits |
| `BlsKaliski.BezoutKept` | crypto/bls12381/fp.go:112-130 | p == u*s + v*r at every step |
| `BlsKaliski.CongruentKept` | crypto/bls12381/fp.go:112-130 | e*r is congruent to -u*2^k and e*s to v*2^k at every step |
| `BlsKaliski.CofactorsBelow` | crypto/bls12381/fp.go:112-130 | r and s stay inside the modulus while v is positive |
| `BlsKaliski.FewSteps` | crypto/bls12381/fp.go:109-130 | fewer than 762 steps were made before any step that runs |
| `BlsKaliski.EndsAtOne` | crypto/bls12381/fp.go:133-141 | for coprime e the surviving u is one and at least 381 steps were made |
| `BlsKaliski.CofactorNotZero` | crypto/bls12381/fp.go:143-147 | r is never a multiple of p at the end |
| `BlsKaliski.NoInverse` | crypto/bls12381/fp.go:95-154 | nothing is an inverse of a number that shares a divisor with p |
| `BlsKaliski.InverseMeaning` | crypto/bls12381/fp.go:95-154 | an inverse up to 2^768 is an inverse for Montgomery multiplication, and conversely |
| `BlsInverse.Div2` | crypto/bls12381/field_element.go:179-186 | halves the number |
| `BlsInverse.Mul2` | crypto/bls12381/field_element.go:188-197 | doubles the number and returns the bit shifted out |
| `BlsInverse.Cmp` | crypto/bls12381/field_element.go:158-167 | compares the numbers, most significant limb first |
| `BlsInverse.IsEvenCorrect` | crypto/bls12381/field_element.go:145-148 | the low bit decides |
| `BlsField.IsZeroCorrect` | crypto/bls12381/field_element.go:150-152 | all limbs zero means the number zero |
| `BlsSquare.Square` | crypto/bls12381/arithmetic_fallback.go:346-465 | in place, with the result array possibly the operand, for every reduced operand: the result is the reduced number that times 2^384 is the square less the dropped carries, and equals the Montgomery product of the operand with itself if and only if no column drops a carry |
| `BlsSquare.SquareExact` | crypto/bls12381/arithmetic_fallback.go:346-465 | six rounds leave less than twice the modulus, and their reduction is the product exactly when no carry is dropped: dropped carries never cancel modulo p |
| `BlsSquare.SquareFails` | crypto/bls12381/arithmetic_fallback.go:506-519 | a reduced element whose first cross column drops a carry, so that squaring differs from multiplication |
| `BlsSquare.ClearLimbsDropNothing` | crypto/bls12381/arithmetic_fallback.go:346-465 | a condition on the limbs alone: if every doubled product of two of the first five limbs either stays far enough below 2^128 or reaches it, no column drops a carry |
| `BlsSquare.Madd2s` | crypto/bls12381/arithmetic_fallback.go:506-519 | the three words hold twice the product plus the addends, less 2^128 when the carry out of the second word is not counted |
| `BlsSquare.HelpersAgree` | crypto/bls12381/arithmetic_fallback.go:521-556 | the three shorter helpers are the general one with zero operands |
| `BlsSquare.SquareRound` | crypto/bls12381/arithmetic_fallback.go:368-384 | one round in place computes the words of the round function, whether or not it writes over its own accumulator |
| `BlsSquare.ColumnSum` | crypto/bls12381/arithmetic_fallback.go:349-366 | the columns of a round hold the accumulator plus the products the round adds, less the dropped carries |
| `BlsSquare.ReduceEffect` | crypto/bls12381/arithmetic_fallback.go:349-366 | interleaved reduction divides the columns plus a multiple of the modulus by 2^64 and loses nothing while they stay below the stated bound |
| `BlsSquare.SqStep` | crypto/bls12381/arithmetic_fallback.go:346-449 | every intermediate stays below three times the modulus and every round balances |
| `BlsSquare.SqTotal` | crypto/bls12381/arithmetic_fallback.go:346-449 | the accumulator times 2^384 plus the dropped carries is the square plus a multiple of the modulus |
| `BlsSquare.GainsMakeSquare` | crypto/bls12381/arithmetic_fallback.go:346-449 | doubled cross products and squares of limbs, taken over all rounds, make the square |
| `BlsSquare.LossNoMultiple` | crypto/bls12381/arithmetic_fallback.go:506-519 | the total of dropped carries is a multiple of the modulus only when it is zero |
| `BlsMultiExp.MulScalar` | crypto/bls12381/g1.go:345-356 | double and add is repeated addition, in any commutative group |
| `BlsMultiExp.MultiExp` | crypto/bls12381/g1.go:367-417 | for every window width from 1 to 63 the result is the sum of the multiples for scalars below 2^256, whatever the width, and of their covered digits otherwise; windows are filled exactly; the caller's scalars end shifted; unequal lengths are refused |
| `BlsMultiExp.FillBuckets` | crypto/bls12381/g1.go:391-398 | after distributing the points the buckets weigh the sum of digit times point |
| `BlsMultiExp.SumBuckets` | crypto/bls12381/g1.go:399-403 | running sums weigh each bucket by its number |
| `BlsMultiExp.Combine` | crypto/bls12381/g1.go:409-415 | doublings between windows put the digits together |
| `BlsMultiExp.WeightedUpdate` | crypto/bls12381/g1.go:391-403 | adding a point to bucket k adds it k times to the weighted sum |
| `BlsMultiExp.DotLinear` | crypto/bls12381/g1.go:409-415 | the sum of multiples is linear in the scalars |
| `BlsDigits.Covered` | crypto/bls12381/g1.go:375-386 | the windows cover every scalar of 256 bits |
| `AbiRoundTrip.RoundTrip` | abi/decode.go:34-92 | for every well-formed type and matching value, decoding the encoding followed by any suffix gives the value back; for a static type the rest is exactly the suffix |
| `AbiRoundTrip.EncodedShape` | abi/type.go:266-280 | every matching value has an encoding of at least a word; that of a static type has exactly the type's size |
| `AbiRoundTrip.ItemsSurvive` | abi/decode.go:168-246 | after k components the decoder has the first k values and stands behind the first k heads |
| `AbiRoundTrip.Places` | abi/encode.go:56-160 | where the head and the tail of a component lie |
| `AbiRoundTrip.NumberRoundTrip` | abi/decode.go:112-150 | every integer in range of its type is read back, native widths and others, signed and not |
| `AbiRoundTrip.BytesRoundTrip` | abi/encode.go:206-226 | byte strings of every length survive their padding |
| `AbiRoundTrip.WordRoundTrip` | abi/decode.go:62-92 | one-word values survive and leave the suffix |
| `AbiReEncode.ReEncodesExactly` | abi/encode.go:98-184 | for every well-formed type: all its values, once decoded, encode to the bytes they came from if and only if all names in it, at any depth, are in lower case |
| `AbiReEncode.ReEncode` | abi/encode.go:98-160 | a decoded value encodes to the bytes it came from when tuple names are lower case |
| `AbiReEncode.NamesConfuse` | abi/encode.go:125-184 | a name not in lower case, at any depth, gives two values with different encodings that are the same to the encoder once decoded |
| `AbiReEncode.NameNotFound` | abi/encode.go:125-184 | a component whose name is not in lower case, alone in its tuple, is not found again |
| `AbiReEncode.UpperNameFails` | abi/encode.go:125-184 | for example (bool A) |
| `AbiReEncode.WrongComponentEncoded` | abi/encode.go:125-184 | next to a component named like it in lower case, that one is encoded in its place and no error is reported |
| `AbiReEncode.SampleTwins` | abi/encode.go:21-54 | every well-formed type has two values with different encodings of the same length |
| `AbiNoWidth.NoWidthSurvives` | abi/decode.go:35-60 | a value without bytes, such as an empty tuple, an array of length zero or arrays of those, survives the round trip if and only if the input that follows is as long as the decoder's checks want it |
| `AbiNoWidth.BlankDecoding` | abi/decode.go:204-246 | decoding such a value takes nothing and fails exactly when too little follows |
| `AbiNoWidth.EmptyEncoding` | abi/encode.go:56-96 | its encoding is empty |
| `AbiRoundTrip.RepeatedKeyNeverDecodes` | abi/decode.go:194-200 | a tuple with two equal keys is never decoded, whatever the input |
| `AbiEncode.EncodeValue` | abi/encode.go:21-54 | dispatch as the reference encoder |
| `AbiEncode.EncodeSliceAndArray` | abi/encode.go:56-96 | the loop over elements builds heads, offsets and tails as the reference layout |
| `AbiEncode.EncodeTuple` | abi/encode.go:98-160 | the same for tuples, by index or by key, with its errors |
| `AbiEncode.PackBytes` | abi/encode.go:220-226 | the length word, the bytes, and zeros up to the next whole word |
| `AbiWire.LeafWire` | abi/encode.go:192-261 | for every one-word type and value, as the Contract ABI Specification has it: an integer is the 32 bytes whose big-endian value is n, or n + 2^256 when negative; a bool is 0 or 1; an address is 12 zero bytes then its bytes; bytesN and function are their bytes then zeros |
| `AbiWire.BytesWire` | abi/encode.go:206-226 | bytes and string are their length as a word, the bytes, and zeros up to a whole word |
| `AbiWire.CompositeWire` | abi/encode.go:56-160 | arrays, slices and tuples: the number of elements of a slice, then every component in order in its head, or at the offset that its head holds, behind all heads and earlier tails and without gaps |
| `AbiWire.ComponentsOf` | abi/encode.go:98-184 | the components of a list are its items in order, those of a record its entries under the lower-case names |
| `AbiWire.IntegerReads` | abi/decode.go:112-150 | every input of a word or more decodes as an integer: the number in the word, in the modulus of a native width or of the word |
| `AbiWire.WordReadsAs` | abi/decode.go:62-110 | which words decode as bool, address, bytesN and function, and as what |
| `AbiWire.CompositeReads` | abi/decode.go:168-246 | arrays, slices and tuples decode exactly when their components can be read in order, in place or at their offset, in the number that fits the input |
| `AbiWire.ItemsReadExactly` | abi/decode.go:168-246 | the same for the components alone |
| `AbiWords.WordReads` | abi/encode.go:299-308 | the word holds the number modulo 2^256 and its low bytes hold it modulo their size |
| `AbiWords.PadBytes` | abi/encode.go:310-333 | the bytes at one end and zeros at the other, or the last bytes of what is too long |
| `AbiDecode.DecodeValue` | abi/decode.go:34-92 | dispatch as the reference decoder, with its length checks |
| `AbiDecode.DecodeTuple` | abi/decode.go:168-202 | the loop over components, following offsets, refusing repeated keys |
| `AbiDecode.DecodeArraySlice` | abi/decode.go:204-246 | the loop over elements, following offsets |
| `AbiDecode.ReadLength` | abi/decode.go:271-281 | the number in the word, accepted exactly when below 2^63 and at most what is left |
| `AbiDecode.ReadOffset` | abi/decode.go:259-269 | the number in the word, accepted exactly when there is a word and it is below 2^63 and inside the enclosing data |
| `TrackerMachine.Tracker.HandleReconcile` | tracker/tracker.go:856-887 | it succeeds if and only if, in addition, the logs of every added block are available to every synced filter; then every synced filter's store is the logs of its chain, the chain lost the removed blocks and gained the added ones, and the one event sent replays old logs into new; on failure the window is still linked and short |
| `TrackerMachine.Tracker.Run` | tracker/tracker.go:856-887 | all blocks are handled if and only if each in its turn attaches and has its logs, else it stops at the first that does not; the stores agree with their chains, and the window is linked and short |
| `TrackerMachine.Tracker.HandleBlockEvent` | tracker/tracker.go:824-854 | on a window of known blocks of a tree it succeeds if and only if the window is empty, or holds the block, or some ancestor fewer than backlog + 2 generations up, with all parents before it known, has its parent in it; on success the window is the last blocks of the old ones without the removed and then the added; it stays linked and at most the backlog long in any case, unchanged by an error; at most backlog + 1 parent queries |
| `TrackerMachine.Tracker.HandleReconcileImpl` | tracker/tracker.go:934-986 | the plan of the reference, with at most backlog + 1 queries |
| `TrackerMachine.Tracker.Backfill` | tracker/tracker.go:958-978 | the ancestors down to the first that attaches to the window |
| `TrackerModel.ReconcileExactly` | tracker/tracker.go:934-986 | there is a plan exactly when the block attaches, in terms of parents alone; else the error is the missing parent or the depth |
| `TrackerModel.AttachableBySome` | tracker/tracker.go:958-978 | that is, when some ancestor within reach has its parent in the window |
| `TrackerModel.AncestorsFound` | tracker/tracker.go:958-978 | what the search finds are the ancestors up to the nearest that attaches |
| `TrackerModel.AddedAttach` | tracker/tracker.go:934-986 | the added blocks are the ancestors of the new one up to the nearest that attaches |
| `TrackerModel.KnownPushes` | tracker/tracker.go:754-767 | pushing linked known blocks is never refused |
| `TrackerMachine.Tracker.UpdateFilters` | tracker/tracker.go:872-886 | every synced filter follows the event, up to the first whose logs are missing |
| `TrackerModel.ReconcileAttaches` | tracker/tracker.go:934-986 | added blocks end in the new one, are linked, attach to the last kept block, and no earlier one would have attached |
| `TrackerModel.AncestorsAttach` | tracker/tracker.go:958-978 | the search stops at the first block whose parent is in the window |
| `TrackerMachine.Tracker.AddBlockLocked` | tracker/tracker.go:754-767 | drops the oldest of a full window, then appends or refuses a gap |
| `TrackerMachine.Tracker.BlockAtIndex` | tracker/tracker.go:769-776 | the first block with the hash |
| `TrackerMachine.Tracker.AddBlocks` | tracker/tracker.go:845-851 | block after block until one is refused |
| `TrackerMachine.Tracker.CutAfter` | tracker/tracker.go:837-843 | takes back the end of the window |
| `TrackerModel.PushAllKeeps` | tracker/tracker.go:754-767 | a linked short window stays so, also when a push is refused |
| `TrackerModel.PushAllWindow` | tracker/tracker.go:754-767 | without refusal the window is the last blocks of everything |
| `TrackerMachine.Tracker.UpdateFilter` | tracker/tracker.go:872-882 | one filter follows an event of the window |
| `TrackerMachine.DoFilter` | tracker/tracker.go:889-932 | the event replays the change; it succeeds if and only if the logs of every added block are available |
| `TrackerMachine.TakeBack` | tracker/tracker.go:890-898 | removed logs in the order of the store |
| `TrackerMachine.RemoveLogs` | tracker/tracker.go:778-815 | cuts the store behind the last log that stays, newest first |
| `TrackerMachine.Revert` | tracker/tracker.go:817-822 | the same items in the opposite order |
| `TrackerMachine.FetchLogs` | tracker/tracker.go:908-917 | asks up to five times |
| `TrackerModel.Rewind` | tracker/tracker.go:778-815 | taking back a block of a linked chain cuts the store exactly before that block |
| `TrackerModel.RewindAll` | tracker/tracker.go:778-815 | taking back a block below a filter's chain empties its store |
| `TrackerMachine.StoreStep` | tracker/tracker.go:889-932 | the store after a step is the logs of the chain after it |
| `TrackerModel.ChainStep` | tracker/tracker.go:824-854 | the chain after a step is linked and still ends as the window does |
| `TrackerSync.PopulateBlocks` | tracker/tracker.go:538-566 | the first window: the last blocks up to the latest, linked, fewer only when the chain begins |
| `TrackerSync.FindAncestor` | tracker/tracker.go:308-331 | finds the nearest common ancestor exactly when both climb to it in step within the backlog |
| `TrackerSync.SyncBatch` | tracker/tracker.go:355-417 | requires no more than that the batches end; however their sizes adapt, on success each block of the range contributed its logs exactly once and in order; on failure the store holds the logs up to some block; the events sent announce exactly what the store gained; and it ends as the sequence of queries says |
| `TrackerSync.EndsExactly` | tracker/tracker.go:363-416 | the batches end if and only if no query of a batch of one block is ever refused as too much |
| `TrackerSync.StuckForEver` | tracker/tracker.go:371-375 | after such a refusal the same query is repeated for ever |
| `TrackerSync.SteadyEndsExactly` | tracker/tracker.go:363-416 | with a node that answers everything but too large ranges, and refuses what contains a refused block, they end if and only if no block of the range is too much on its own |
| `TrackerSync.NeverPassed` | tracker/tracker.go:363-416 | with such a node a block that is too much is never passed, from any start and with any batch size |
| `TrackerSync.NeverCatchesUp` | tracker/tracker.go:363-416 | for example a node that refuses block 5, from block 0 to block 9 |
| `TrackerSync.SteadyNeverFails` | tracker/tracker.go:363-416 | with such a node no query of the batches fails |
| `TrackerSync.BatchBounded` | tracker/tracker.go:363-416 | a batch is never larger than configured |
| `TrackerSync.RangesJoin` | tracker/tracker.go:355-417 | consecutive ranges join |
| `Blake2b.HashChunks` | crypto/blake2b/blake2b.go:243-297 | for every split of the data into writes, with or without key, the sum is the digest of the whole message |
| `Blake2b.CheckSum` | crypto/blake2b/blake2b.go:127-154 | the one-shot sum is the same digest |
| `Blake2b.Hasher.Write` | crypto/blake2b/blake2b.go:243-272 | adds to the message, keeping a full last block back |
| `Blake2b.Hasher.Absorb` | crypto/blake2b/blake2b.go:258-271 | from a block boundary on |
| `Blake2b.Hasher.Finalize` | crypto/blake2b/blake2b.go:280-297 | the digest of the message so far, leaving the state |
| `Blake2b.Hasher.Sum` | crypto/blake2b/blake2b.go:274-278 | the digest cut to its size |
| `Blake2b.Hasher.Reset` | crypto/blake2b/blake2b.go:233-241 | as new, the key block first |
| `Blake2b.Hasher.constructor` | crypto/blake2b/blake2b.go:111-125 | a new digest |
| `Blake2b.HashBlocks` | crypto/blake2b/blake2b.go:156-172 | folds whole blocks under the running counter |
| `Blake2b.LastIsDigest` | crypto/blake2b/blake2b.go:280-297 | borrow, last block and carry give the digest of section 3.3 of RFC 7693 |
| `Blake2bStandard.DigestIsStandard` | crypto/blake2b/blake2b.go:127-172 | the digest is the last state of any sequence of states in which block i, byte by byte from the message and zero beyond it, is compressed under the count of the bytes so far as two words and flagged final exactly for the last |
| `Blake2bStandard.EveryMessageHashed` | crypto/blake2b/blake2b.go:127-172 | every message has such a sequence |
| `Blake2bStandard.OutputByte` | crypto/blake2b/blake2b.go:294-296 | byte 8i + r of the output is digit r to the base 256 of word i |
| `Blake2bStandard.KeyFirst` | crypto/blake2b/blake2b.go:237-240 | a key is the first block, followed by zeros |
| `Blake2bStandard.StreamByte` | crypto/blake2b/blake2x.go:142-168 | byte k of the extendable output is byte k mod 64 of the digest of the root under the configuration of node k / 64 |
| `Blake2bModel.LastCount` | crypto/blake2b/blake2b.go:283-292 | the borrow before the last block and the carry in it leave the message length modulo 2^128 |
| `Blake2bModel.AddBlockCounts` | crypto/blake2b/blake2b.go:156-172 | the counter counts modulo 2^128 |
| `Blake2bModel.FoldContinues` | crypto/blake2b/blake2b.go:156-172 | folding the next blocks continues the chain |
| `Blake2x.Xof.Read` | crypto/blake2b/blake2x.go:113-170 | what is read is the next piece of the stream wherever earlier reads stopped; end of file exactly when nothing is left |
| `Blake2x.Xof.Fill` | crypto/blake2b/blake2x.go:129-168 | the buffer, whole nodes and one more beginning fill the output with the next piece of the stream |
| `Blake2x.ReadPieces` | crypto/blake2b/blake2x.go:113-170 | reads of any sizes give the beginning of the same stream |
| `Blake2x.Xof.FromBuffer` | crypto/blake2b/blake2x.go:129-140 | the rest of a node that was begun |
| `Blake2x.Xof.WholeNodes` | crypto/blake2b/blake2x.go:142-153 | whole nodes |
| `Blake2x.Xof.PartNode` | crypto/blake2b/blake2x.go:155-168 | the beginning of a node, the last one under its own length |
| `Blake2x.Xof.NextNode` | crypto/blake2b/blake2x.go:142-149 | the root hashed under the node's configuration |
| `Blake2x.Xof.Write` | crypto/blake2b/blake2x.go:84-89 | absorbs before the first read |
| `Blake2x.Xof.Reset` | crypto/blake2b/blake2x.go:96-111 | as new |
| `Blake2x.NewXof` | crypto/blake2b/blake2x.go:50-72 | refuses long keys and the reserved length |

## Left out

- JSON-RPC client, transports, wallets, signatures, Etherscan, compiler wrappers and code generation: input, output and text.
- JSON and RLP marshalling, and the marshalling of a BLAKE2b state: thin encodings without a deep invariant.
- Keccak, the 256-bit arithmetic of single opcodes, block data and precompile bodies: parameters of a run (`Env`); a code hash is symbolic, so that equal hashes mean equal code; a precompile leaves at most the gas it was given.
- Tracers, loggers, the console contract, the abort flag, preimages and object pools: observers and performance devices.
- The stack and the memory of a frame are sequences that the methods reassign; aliasing between a returned slice and the caller's memory is not modelled. Returned data is a value.
- The overlay database behind the state cache: a fixed finite map. One transaction is modelled; what a later transaction sees after a self-destruct was committed is not.
- Every account record carries the hash of its code, as the remote database supplies it; the results about state require it (`Hashed`), because records with nonce zero and no hash are dropped on writing.
- The two net meterings of SSTORE (EIP-1283 and EIP-2200) share one function that takes the base rate; the branch structure is the same.
- EvmTransaction.TransitionSupply: requires that the sum of balances, with what was not paid for, stays below 2^256; above it single balances may wrap around.
- EvmPayments.Settled: with the same restriction. `EvmCalls.CalleeRuns` and the lemmas beside it ask for a sum of balances below 2^256 where a transfer comes first.
- EvmSchedule.PaysExactly: for frames whose memory is whole words with its fee paid, which `EvmFrames.EveryIterationSafe` shows of every frame that is reached; `EvmSchedule.PaysCallExactly` in addition for gas of 64 bits, as the source keeps it.
- EvmMemoryOps.MemoryWrites: what a copy writes is stated for sources shorter than 2^64 bytes, `EvmMemoryOps.CallDataPushes` for inputs up to that length, and pushed sizes below 2^256; longer slices do not exist in the source.
- EvmFrames.EveryIterationSafe: for codes with subroutines the program counter claim is for codes of at most 2^32 bytes, because return addresses are kept in 32 bits.
- EvmTheorems.StaticPurity: for rules from Byzantium on, as read-only frames do not exist before.
- BlsMontgomery.Round: round 0 of the multiplication is modelled as a general round on a zero accumulator; it uses a product without the addition of zero.
- BlsInverse.Div2: the shift-and-or of limbs is written as division and remainder by powers of two; the same holds for `BlsInverse.Mul2`.
- BlsSquare.SquareRound: the six unrolled rounds are one round over columns, with the loop limits that the unrolling fixes; the helpers with fewer operands are the general one with zeros (`BlsSquare.HelpersAgree`).
- `fp2.inverse`, square roots, the higher extension towers, pairings, hashing to curves and the point formulas: the group is any commutative group given by its zero and addition.
- BlsMultiExp.MultiExp: the window width is a parameter from 1 to 63; the source derives it from a floating-point logarithm of the number of points, and the result does not depend on it.
- Assembly back ends: their bodies are not part of this model.
- ABI values are a datatype: reflection, structs and pointers are not modelled, strings are their bytes, and lower-casing of names is that of ASCII. Decoding is modelled for every input, with slicing panics as an error; the theorems are about encodings.
- AbiRoundTrip.RoundTrip: requires types without components of no width, with distinct tuple keys, and encodings below 2^63 bytes. Types of no width alone are treated in full in `AbiNoWidth`; types that mix such components with others are not. `AbiRoundTrip.RepeatedKeyNeverDecodes` shows why keys are distinct.
- The ABI type parser and its lexer: text.
- Locks, channels and timers of the tracker, and the interleaving of `Sync` with the block tracker: steps are sequential on filters that are already synced. A store operation never fails; filters do not share a store.
- TrackerMachine.Tracker.HandleReconcile: the node is a fixed tree of blocks with consecutive numbers whose logs carry the hash and number of their block.
- TrackerSync.SyncBatch: the node answers the same query always the same way; cancellation is not modelled.
- The BLAKE2b compression function and the mixing of parameters into initial states: parameters (`Core`).
- Blake2x.Xof.Write: requires that reading has not begun; the source panics otherwise.
