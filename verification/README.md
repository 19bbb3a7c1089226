# A model of the Okura node in Dafny

This project models the parts of the node that are hardest to get right and proves what they are
for. `dafny verify dfyconfig.toml` checks all of it.

* **Contract ABI codec** (`AbiTypes`, `AbiPack`, `AbiUnpack`, `AbiRoundTrip`). The recursive
  head/tail encoder with relative offsets is proved to compute the encoding of the "Formal
  Specification of the Encoding" in the Solidity Contract ABI Specification, and the decoder that
  follows the offsets is proved to invert it for types of any nesting.
* **RLP** (`Rlp`, `RlpTags`, `RlpEncBuffer`, `RlpEncReader`, `RlpStream`). The encoder that keeps
  string data and list headers apart and splices them at the end outputs the recursive encoding of
  Appendix B of the Ethereum Yellow Paper, at once or read in pieces of any size. The stream decoder
  with its stack of list limits accepts exactly the encodings.
* **EVM kernel** (`EvmCode`, `EvmContract`, `EvmMemory`, `EvmSstore`, `EvmTable`, `EvmGas`,
  `EvmInterpreter`). The jump-destination bit vector and its shared cache, the Istanbul instruction
  table, the run loop with stack, memory and gas, nested calls and creations, the gas of every
  operation, and SSTORE gas with refunds. The state database, the block context, hashes, precompiles
  and the arithmetic on words are answers that may be anything; the module `EvmHost` says so. A
  database that goes back to a snapshot is assumed to be as it was then.
* **State database** (`StateDB`): the node's own database behind that interface, and when it does go
  back.
* **Assembler** (`Asm`): the two passes of the label assembler, and the disassembler.
* **Ledger** (`MapSums`, `Staking`, `Rewards`, `Transfers`, `Approvals`, `BlockChecks`, `Ledger`).
  Transfers, escrow, multi-signature transfers and their approvals, stakes with locks, reward
  withdrawal, the split of the block reward and the supply equation, over chains of blocks. Amounts are exact integers; a transaction is in scope when its fee
  plus the size of its amount fits in int64, and every stored amount is proved to lie between 0 and
  the supply. The locked amount of a stake is computed in int64, wrap-around included. The floating-point
  shares are computed by any rounding with the relative error of IEEE double precision.
* **Indexes and quorum code** (`PoolHeap`, `Pool`, `Merkle`, `OraclePrice`, `Oracle`): the
  transaction pool, the address Merkle tree and the price oracle.

`Bytes`, `Seqs` and `Wrappers` hold what several of them share.

Objects whose methods update their fields are classes; algorithms that loop are methods proved
against functions on values, and the properties are lemmas about those functions. Errors are values.

## What the code does not do

Some properties one would expect are false of the code. Each has a member that shows it and one that
says exactly when the property does hold.

* A list may be entered although its outer list has no room left, because the tag check of the RLP
  stream compares with the limit from before the tag was read; the outer limit then wraps around
  (`RlpStream.OverrunIsEntered`, `RlpStream.EnterKeepsClaimIff`). The decoder is still exact.
* A `big.Int` that does not fit in 256 bits is packed without an error and comes back reduced; one that
  fits in 256 bits and not in its type, such as a large `uint24`, comes back as it is
  (`AbiRoundTrip.TooWideIsReduced`, `AbiRoundTrip.TooWideForTypeIsNot`; `AbiRoundTrip.UnpackPack` has
  both directions).
* A zero-length array at the end of the arguments, or alone, is packed and cannot be unpacked; in front
  of another argument it comes back (`AbiRoundTrip.EmptyArrayIsReturnedIff`). `AbiRoundTrip.UnpackPack`
  says for which arguments of any types unpacking succeeds.
* A jump with a string operand is counted by the first assembler pass and not emitted by the second
  (`Asm.StringJumpCompiles`, `Asm.Assemble`, `Asm.LossOnlyByStringJumps`).
* Going back to a snapshot of the state database uses the value that was overwritten as the key: what a
  failed call wrote stays, and other slots change, also when a call around it fails
  (`StateDB.FailedWriteStays`; `StateDB.UndoneIff` has the exact condition, with calls inside calls).
* The clean-up of expired locks removes by original index: with two or more expired entries it drops a
  lock that is still running, or runs off the list (`Staking.CleanUpExactIff`,
  `Staking.CleanUpPanicsIff`, `Staking.EarlyRelease`).
* The release of a lock overflows int64 and locks the stake again (`Staking.OverflowLocksAgain`,
  `Staking.LockValueExactIff`).
* Fees of delegated recipients from 512 on and of positive amounts to 256-511 are counted by the block
  and charged to nobody; a block with such fees is the last one that is ever accepted (`Ledger.Ledger.Extend`,
  `BlockChecks.BalancesIffCharged`, `BlockChecks.UnchargedHappens`).
* The test for a missing main transaction in the multi-signature code looks at the length of the bytes
  of an empty transaction, which is never zero. The code goes on with that empty transaction, and
  refuses it only because its height is 0, from height 60481 on (`Ledger.MissingMainGoesOn`;
  `Ledger.Ledger.ProcessTransactionsMultiSign` has both directions).
* A block that the check found covered can fail for lack of funds, because held transfers are paid
  first: one that was held in a refused block stays in the pool when its sender is an ordinary account
  again (`Ledger.HeldTransferStarves`). A block of ordinary transfers goes through exactly when each of
  its senders can pay at its turn behind the held transfers (`Ledger.Ledger.ProcessBlockTransfers`).
* Counting the approvals of a multi-signature transfer takes signers out of the list that is stored with
  the account: afterwards one signer may be missing and another counted twice
  (`Approvals.OneApprovesTwice`). The list stays as it was exactly when every approval is by the first or
  the last signer left (`Approvals.SignersKeptIff`), and no signer counts twice unless listed twice
  (`Approvals.CountsSignersIff`).
* A full pool evicts the transaction with the highest priority and leaves its hash in the index map
  unless it is the new one, and a ban past the limit takes a queued hash out of the index map
  (`Pool.TransactionPool.AddTransaction`, `Pool.TransactionPool.BanTransactionByHash`).
* Merkle roots do not tell all lists of different length apart (`Merkle.PaddingCollides`): they are
  equal exactly for lists that unfold alike, where unfolding repeats the last block at every odd level
  (`Merkle.RootEqualIff`).
* An account that is in the oracle data three times counts three times towards the quorum
  (`Oracle.ThriceIsAccepted`, `Oracle.StakeIsOfReportersIff`).
* The sum of the two middle prices can overflow int64 and give a price below every report
  (`OraclePrice.OverflowingMiddle`, `OraclePrice.OverflowingMiddleHappens`).

## Model

| member | source | states |
|---|---|---|
| `AbiTypes.TypeSizeIsWords` | core/abi/type.go:381-396 | the head of every type takes whole words, at least one where the decoder needs one |
| `AbiPack.StaticLength` | core/abi/type.go:361-396 | the encoding of a static value has exactly the length the type announces |
| `AbiPack.HeadsLength` | core/abi/type.go:304-341 | the heads of a block take the sum of the type sizes wherever the tails are, so the first offset is right |
| `AbiPack.Pack` | core/abi/type.go:267-346 | the code returns enc(v) of the ABI specification for every value of the right kind, and an error for every other value |
| `AbiPack.PackElement` | core/abi/pack.go:31-85 | for every elementary type and value the bytes are the enc(v) of the specification: two's complement for integers and booleans, the length and zeros up to a multiple of 32 for bytes and strings; the code's own forms are proved equal to these |
| `AbiPack.WordIsTwosComplement` | core/abi/pack.go:74-85 | the 32 bytes of a number, negative ones included, are its residue modulo 2^256, big-endian |
| `AbiPack.PadLenIsPadRight` | core/abi/pack.go:31-35 | rounding the length up to words pads to the next multiple of 32 and no further |
| `AbiPack.PackElements` | core/abi/type.go:275-303 | the loop over a slice or array that grows heads, tail and offset produces the block of its elements |
| `AbiPack.PackFields` | core/abi/argument.go:222-262 | the same for the arguments of a call and for tuples of any component types |
| `AbiPack.AppendPart` | core/abi/type.go:290-302 | one more component adds its head behind the heads, with the offset of its tail, and its tail behind the tails |
| `AbiUnpack.ForEachUnpack` | core/abi/unpack.go:121-158 | the decoding loop is the decoder applied element after element from the right positions, and fails where one fails |
| `AbiUnpack.UnpackValues` | core/abi/argument.go:184-213 | the same for arguments, where static arrays and tuples take several positions |
| `AbiRoundTrip.VirtualArgsAdvance` | core/abi/argument.go:190-210 | counting virtual arguments moves the decoder by the size of the type |
| `AbiRoundTrip.ReadIntegerInverts` | core/abi/unpack.go:36-74 | reading a packed integer gives it back reduced to the width it is read at, signed or not |
| `AbiRoundTrip.DecodeOne` | core/abi/unpack.go:192-253 | a value placed directly or behind an offset anywhere in the input is decoded, for every type, exactly if it is readable there: a word is left where the decoder asks for one |
| `AbiRoundTrip.ElementsAt` | core/abi/unpack.go:121-158 | walking along the heads finds each tail exactly where its head says, for arrays and slices, and fails exactly at an element that is not readable |
| `AbiRoundTrip.TupleAt` | core/abi/unpack.go:160-188 | the same for tuples and arguments |
| `AbiRoundTrip.CanonIsIdentityIffFits` | core/abi/unpack.go:36-74 | reduction to the type leaves a value alone exactly when every integer in it is representable |
| `AbiRoundTrip.UnpackPack` | core/abi/argument.go:184-262 | unpacking what Pack produced gives the arguments back, each integer reduced, exactly if all of them are readable, and fails otherwise; it is the arguments themselves if and only if moreover all of them fit |
| `AbiRoundTrip.InhabitedReads` | core/abi/unpack.go:192-253 | without zero-length arrays and empty tuples everything is readable |
| `AbiRoundTrip.BigIntComesBack` | core/abi/unpack.go:36-74 | a big.Int comes back modulo 2^256 whatever width its type announces |
| `AbiRoundTrip.TooWideIsReduced` | core/abi/pack.go:74-85 | a uint256 of 2^256 comes back as 0 |
| `AbiRoundTrip.TooWideForTypeIsNot` | core/abi/unpack.go:36-74 | a uint24 that needs more than 24 bits comes back as it is |
| `AbiRoundTrip.PackInjective` | core/abi/argument.go:222-262 | different fitting arguments never pack to the same bytes |
| `AbiRoundTrip.EmptyArrayIsReturnedIff` | core/abi/unpack.go:192-195 | an array of length zero comes back if another argument follows it, and is an error if none does |
| `Rlp.PutInt` | rlp/encode.go:407-462 | the size switch writes the shortest big-endian form |
| `Rlp.IntSize` | rlp/encode.go:465-471 | the loop returns the length of that form |
| `Rlp.MinBEUnique` | rlp/encode.go:407-471 | the shortest form is the only one without a leading zero |
| `RlpEncBuffer.RenderLength` | rlp/encbuffer.go:51-76 | the spliced output has exactly size() bytes |
| `RlpEncBuffer.RenderConcat` | rlp/encbuffer.go:62-76 | splicing is compositional: what was encoded first comes first |
| `RlpEncBuffer.EncBuffer.OpenList` | rlp/encbuffer.go:174-177 | opening a list records position and header size and nothing else |
| `RlpEncBuffer.EncBuffer.ListEnd` | rlp/encbuffer.go:179-187 | closing a list patches its own header with the size of its contents, inner headers included |
| `RlpEncBuffer.EncBuffer.WriteBytes` | rlp/encbuffer.go:131-139 | appends the encoding of a string |
| `RlpEncBuffer.EncBuffer.EncodeItem` | rlp/encode.go:278-316 | for every nested item, what was added since renders to its recursive encoding |
| `RlpEncBuffer.EncBuffer.CopyTo` | rlp/encbuffer.go:62-76 | the splice fills a buffer of size() bytes with the rendering and never writes past it |
| `RlpEncBuffer.EncodeToBytes` | rlp/encode.go:73-81 | the output is exactly the recursive encoding of the item |
| `RlpEncReader.EncReader.Next` | rlp/encbuffer.go:242-273 | the next piece keeps the pending output as it was; a header being read is never overwritten in the shared buffer |
| `RlpEncReader.EncReader.CopyPiece` | rlp/encbuffer.go:221-236 | a piece split across reads loses and repeats no byte |
| `RlpEncReader.EncReader.Read` | rlp/encbuffer.go:217-238 | fills the buffer with the pending output as far as it reaches and reports the end exactly when nothing is left |
| `RlpEncReader.EncodeToReader` | rlp/encode.go:88-98 | the announced size is exact, and for every sequence of buffer sizes the chunks are a prefix of the encoding, and all of it once they suffice |
| `RlpTags.TagIsHead` | rlp/decode.go:974-1058 | a tag the decoder accepts is the header the encoder writes |
| `RlpTags.HeadIsTag` | rlp/encode.go:113-130 | and the other way round |
| `RlpTags.PrefixFree` | rlp/decode.go:974-1032 | no encoding is a proper prefix of another |
| `RlpStream.Stream.WillRead` | rlp/decode.go:1096-1112 | reading is allowed exactly within the innermost limit and the remaining input, and charges both |
| `RlpStream.Stream.ReadKind` | rlp/decode.go:974-1032 | succeeds exactly on a canonical tag inside the list, and returns its kind and size |
| `RlpStream.Stream.KindAhead` | rlp/decode.go:947-972 | looks at the tag ahead at most once; the end of a list is reported exactly there |
| `RlpStream.Stream.Bytes` | rlp/decode.go:610-631 | returns a string if and only if a canonical one is ahead, and moves by exactly its encoding |
| `RlpStream.Stream.OpenList` | rlp/decode.go:771-790 | enters a list, charging the outer limit with wrap-around |
| `RlpStream.Stream.ListEnd` | rlp/decode.go:794-805 | leaves a list exactly when it is used up |
| `RlpStream.Stream.DecodeSliceElems` | rlp/decode.go:287-314 | the items read take exactly the size of the list, and any list of encodings of that size is read |
| `RlpStream.Stream.DecodeListSlice` | rlp/decode.go:272-285 | the same for the list with its header |
| `RlpStream.Stream.DecodeInterface` | rlp/decode.go:492-514 | reads the item that is ahead, whatever its shape, and no other |
| `RlpStream.DecodeBytes` | rlp/decode.go:90-104 | accepts a byte string if and only if it is the encoding of an item, and returns that item |
| `RlpStream.ReadKeepsClaim` | rlp/decode.go:1096-1112 | reading keeps what the open lists claim within the remaining input |
| `RlpStream.EnterKeepsClaimIff` | rlp/decode.go:771-790 | entering a list keeps it if and only if the list fits into the one around it |
| `RlpStream.OverrunIsEntered` | rlp/decode.go:947-972 | the input c1 c1 00 enters a list beyond its outer list |
| `EvmCode.VisitsNext` | core/evm/analysis.go:75-118 | the instructions of a code follow one another, and no push data is one |
| `EvmCode.Set16` | core/evm/analysis.go:51-56 | the setter marks exactly its sixteen bits |
| `EvmCode.SetN` | core/evm/analysis.go:37-43 | and this one exactly its two to seven |
| `EvmCode.MarkPush` | core/evm/analysis.go:82-116 | the runs of 16, 8 and the rest mark exactly the data of one push, inside the vector |
| `EvmCode.CodeBitmap` | core/evm/analysis.go:64-118 | for every code and position the vector is set exactly on push data; it never writes past len/8+5 bytes |
| `EvmContract.Contract.IsCode` | core/evm/contract.go:101-130 | the answer is whether an instruction starts there, from the local or the shared analysis, assuming the code hash is injective |
| `EvmContract.Contract.ValidJumpdest` | core/evm/contract.go:85-97 | true exactly for a JUMPDEST that is an instruction |
| `EvmContract.Contract.UseGas` | core/evm/contract.go:162-168 | gas is taken exactly when there is enough, and never wraps |
| `EvmMemory.ToWordSize` | core/evm/common.go:67-73 | the number of words that hold the size, also where rounding up would overflow |
| `EvmMemory.MemCostFits` | core/evm/gas_table.go:36-44 | no step of the cost overflows for sizes up to 0x1FFFFFFFE0 |
| `EvmMemory.Memory.MemoryGasCost` | core/evm/gas_table.go:29-56 | the fee is the difference of the quadratic cost, and lastGasCost is the cost of the new size |
| `EvmMemory.Memory.Set` | core/evm/memory.go:35-46 | writes exactly its range; the panic is its precondition |
| `EvmMemory.Memory.Set32` | core/evm/memory.go:50-59 | writes the word big-endian into its 32 bytes and nothing else |
| `EvmMemory.ChargesTelescope` | core/evm/gas_table.go:29-56 | over any sequence of sizes the charges add up to the cost of the largest |
| `EvmSstore.BothBalanced` | core/evm/gas_table.go:120-218 | the constants of EIP-1283 and EIP-2200 satisfy the equations the results below need |
| `EvmSstore.StateDB.GasNet` | core/evm/gas_table.go:120-218 | gas and refund of one store, and the refund counter still covers every clearing that may have to be taken back |
| `EvmSstore.StateDB.GasLegacy` | core/evm/gas_table.go:96-119 | net of refunds a store costs 5000 and 15000 for each slot more that is occupied; either the gas or the refund carries that, not both |
| `EvmSstore.StateDB.StoreAllLegacy` | core/evm/gas_table.go:96-119 | over any sequence of stores to any slots, which leaves in each slot what was stored last, the legacy rule costs, net of refunds, 5000 per store and 15000 for each slot more that is occupied at the end |
| `EvmSstore.ClausesAreWorth` | core/evm/gas_table.go:178-218 | gas minus refund of a store is the base plus the change of a worth that depends on the slot's original and current value |
| `EvmSstore.NetCostPathIndependent` | core/evm/gas_table.go:120-218 | for any sequence of stores to a slot, gas minus refunds is the number of stores times the base plus a function of the original, first and last values |
| `EvmSstore.StateDB.StoreAll` | core/evm/gas_table.go:120-218 | the same over any sequence of stores to any slots: every store is made and paid for, the refund counter never goes below zero, and the sum depends on the final slots only |
| `EvmSstore.StateDB.RunActs` | core/evm/evm.go:168-391 | stores mixed with nested calls that go back to their snapshot when they fail, in any nesting: the slots are those of the acts that did not fail, the refund counter never goes below zero, and the gas outside failed calls is that of its stores and is accounted for by the final slots |
| `EvmTable.IstanbulWellFormed` | core/evm/jump_table.go:115-1049 | every row keeps its operands within what it pops, has a gas function where it touches memory, and costs at least one gas unless it ends the frame |
| `EvmTable.MemSize` | core/evm/memory_table.go:19-113 | the required size covers every range of the operation, without overflow |
| `EvmTable.MemSizeIsLeast` | core/evm/memory_table.go:19-113 | it is the least size that does, and is missing only if a range ends beyond uint64 |
| `EvmGas.ExtraGas` | core/evm/gas_table.go:65-318 | the gas of copying, hashing, logs, exponents, stores, calls and self-destruction is that of the fee schedule in unbounded arithmetic, and fails exactly where that is no uint64 |
| `EvmGas.CallGasIsForCallee` | core/evm/gas.go:37-53 | the callee gets at most all but a 64th of what is left; where the subtraction wraps around the total still is not affordable |
| `EvmInterpreter.Evm.JumpTo` | core/evm/instructions.go:542-552 | succeeds exactly if the operand is a JUMPDEST that is an instruction, and goes there |
| `EvmInterpreter.Evm.PushWord` | core/evm/instructions.go:879-915 | the pushed word is the data behind the opcode, padded with zeros past the end of the code |
| `EvmInterpreter.Evm.ExecuteStack` | core/evm/instructions.go:283-933 | what PUSH, DUP, SWAP, JUMP, JUMPI, MLOAD, CALLDATALOAD, PC, MSIZE, GAS and the length opcodes do to the stack and the program counter; the stack height changes by what the row says, the next program counter is an instruction or past the code, and a static frame stores nothing |
| `EvmInterpreter.Evm.ExecuteJump` | core/evm/instructions.go:542-566 | JUMP and JUMPI, with the abort check before the condition: the next instruction is the operand or the one behind |
| `EvmInterpreter.Evm.Shuffle` | core/evm/instructions.go:879-933 | PUSH, DUP and SWAP change exactly the words they name |
| `EvmInterpreter.Evm.Answer` | core/evm/instructions.go:283-585 | MLOAD and CALLDATALOAD push the word at their offset, zeros behind the end, and the queries about the frame push its figures |
| `EvmInterpreter.StoredWordIsLoaded` | core/evm/instructions.go:503-515 | MLOAD gives back the word that MSTORE wrote there |
| `EvmInterpreter.Evm.GetData` | core/evm/common.go:54-64 | the bytes from the offset on, zeros behind the end, for offsets beyond uint64 too |
| `EvmInterpreter.Evm.ExecuteMemory` | core/evm/instructions.go:299-387 | the stores and copies write exactly their bytes, zero-padded, inside memory and change nothing else; RETURNDATACOPY fails exactly beyond the returned data, and LOG in a static frame |
| `EvmInterpreter.Evm.ExecuteEnd` | core/evm/instructions.go:810-849 | RETURN and REVERT hand out their range of memory; SELFDESTRUCT is refused in a static frame |
| `EvmInterpreter.Evm.DynamicGas` | core/evm/gas_table.go:65-441 | the charge is memory growth, the operation's own cost and the gas for the callee; it is within the gas at hand exactly when that pays for all of it, whatever overflows on the way |
| `EvmInterpreter.Evm.CallAddress` | core/evm/evm.go:168-391 | no call returns more gas than it was given, a failed one restores the state, one that did not revert keeps no gas, and a static call or a call from a static frame changes no state but for accounts that calls bring into being |
| `EvmInterpreter.Evm.CreateContract` | core/evm/evm.go:406-496 | no creation returns more gas than it was given; of a failed one nothing is left but the caller's nonce, one higher, and no gas unless it reverted, but for a code deposit before Homestead; too deep a call and an exhausted nonce are refused and change nothing |
| `EvmInterpreter.Evm.OpCall` | core/evm/instructions.go:674-808 | pushes 1 or 0, writes what was returned to the result range unless the call failed otherwise than by REVERT, sets the return data and adds the gas that came back; gas never wraps, the stipend included |
| `EvmInterpreter.Evm.OpCreate` | core/evm/instructions.go:587-672 | hands all but a 64th of the gas down, pushes the address or zero, keeps return data only of a REVERT and adds the gas that came back |
| `EvmInterpreter.Evm.Prepare` | core/evm/interpreter.go:187-232 | succeeds exactly when the gas pays for the operation and takes exactly its price; then every range of the operation lies inside memory, and at least one gas was paid unless the frame ends |
| `EvmInterpreter.Evm.Step` | core/evm/interpreter.go:180-243 | one turn: gas falls, the stack stays within 1024 and changes by what the row says, and the next program counter is the next instruction or a jump destination; a turn that ends the frame is for an instruction that can |
| `EvmInterpreter.Evm.TraceLength` | core/evm/interpreter.go:180-243 | a frame has at most one turn more than it has gas |
| `EvmInterpreter.Evm.Run` | core/evm/interpreter.go:116-250 | over every execution of any code: the trace starts at the first byte with all the gas and nothing on stack and memory, every turn is for the opcode at its program counter, leads to the next instruction or a jump destination and changes the stack by what the row says, gas falls, the last turn is one that can end the frame as it did, execution ends, the memory gas paid is the cost of the final size, and a static frame changes nothing but accounts that calls bring into being |
| `EvmInterpreter.Evm.RunLoop` | core/evm/interpreter.go:180-243 | the same for the loop alone |
| `StateDB.StateAccount.SetState` | core/stateDB/methods.go:139-152 | writes one slot and records what was there |
| `StateDB.StateAccount.RevertToSnapshot` | core/stateDB/methods.go:195-206 | undoes the recorded entries one by one, each with the overwritten value as its key |
| `StateDB.StateAccount.Run` | core/evm/evm.go:168-391 | the acts of a call, with calls inside that go back when they fail and leave nothing on record |
| `StateDB.OwnNumberKept` | core/stateDB/methods.go:195-206 | a slot that holds its own number still does after any acts, or has it on record |
| `StateDB.UndoAllValue` | core/stateDB/methods.go:195-206 | a slot gets its own number as value if that number was overwritten anywhere in its account since the snapshot, and keeps its value otherwise |
| `StateDB.StateAccount.FailedCall` | core/evm/evm.go:235-241 | snapshot, any acts, calls inside that may fail included, and back: the storage is as before if and only if every overwritten value on record lay in the slot of its own number and the acts left every other slot as they found it |
| `StateDB.UndoneIff` | core/stateDB/methods.go:195-206 | the same about the stores |
| `StateDB.OneWriteUndoneIff` | core/stateDB/methods.go:195-206 | one write of a new value is undone if and only if the slot held its own number |
| `StateDB.FailedWriteStays` | core/stateDB/methods.go:195-206 | 5 written to slot 1 of an empty storage is still there after the call and the call around it failed |
| `Asm.Compiler.Feed` | core/asm/compiler.go:59-89 | the first pass records the count and the address of the last definition of every label |
| `Asm.Compiler.CompileElement` | core/asm/compiler.go:172-228 | an element is accepted exactly if its operands are right; then it has emitted exactly the bytes it stands for and taken its operands |
| `Asm.Compiler.CompileLine` | core/asm/compiler.go:130-157 | a line is accepted exactly if it has the form of one; then the code is what the tokens read so far stand for |
| `Asm.Compiler.Compile` | core/asm/compiler.go:97-118 | there is no error exactly if every line is accepted; then the code is what the program stands for |
| `Asm.LossOnlyByStringJumps` | core/asm/compiler.go:172-199 | the passes count the same exactly if no jump has a string operand |
| `Asm.LinesKept` | core/asm/compiler.go:97-228 | in a program that compiles, code and count stay in step but for string operands, every definition is at its recorded address, and the code of a clean program is its instruction list |
| `Asm.StringJumpCompiles` | core/asm/compiler.go:172-199 | a program with a string operand of a jump compiles without an error |
| `Asm.Assemble` | core/asm/compiler.go:59-118 | without errors the code is what the program stands for with the recorded addresses; the count is its length if and only if no jump has a string operand; then every label is at a JUMPDEST; in a clean program that is a valid jump destination, and disassembling the code lists the program |
| `Asm.OffsetIsStart` | core/asm/compiler.go:172-228 | every instruction of a proper list starts at its offset |
| `Asm.InstructionIterator.Next` | core/asm/asm.go:45-80 | steps to the next instruction, ends at the end of the code, and fails exactly on an incomplete push |
| `Asm.Disassemble` | core/asm/asm.go:121-136 | lists the instructions of the code from its start, or fails on an incomplete push |
| `Asm.DisassembleInverts` | core/asm/asm.go:121-136 | disassembling the code of an instruction list gives that list back, with the offsets |
| `Staking.StakingAccounts.GetLockedAmount` | account/stakeAccount.go:28-48 | the sum that unstaking uses, int64 overflow included |
| `Staking.StakingAccounts.Stake` | account/stakeAccount.go:50-101 | accepted exactly for 0 <= release <= locked <= amount; adds the amount, the lock if any, and the operational mark only without a lock |
| `Staking.StakingAccounts.Unstake` | account/stakeAccount.go:103-155 | refused exactly without an account, stake or free stake; otherwise takes the amount out and cleans the locks up, or panics |
| `Staking.StakingAccounts.Reward` | account/stakeAccount.go:157-184 | adds to the rewards of an account that exists |
| `Staking.StakingAccounts.WithdrawReward` | account/stakeAccount.go:186-217 | takes rewards out, never below zero |
| `Staking.RemovalsShift` | account/stakeAccount.go:134-138 | after k removals by original index the list behind the last one is shifted by k |
| `Staking.CleanUpExactIff` | account/stakeAccount.go:120-138 | the clean-up keeps exactly the running locks if and only if at most one has expired |
| `Staking.CleanUpPanicsIff` | account/stakeAccount.go:134-138 | it leaves the list exactly when two or more have expired and too few entries follow the last |
| `Staking.TwoExpiredDropARunningLock` | account/stakeAccount.go:134-138 | otherwise, with two or more, a running lock is dropped |
| `Staking.EarlyRelease` | account/stakeAccount.go:120-138 | two expired locks before a running one release all of it |
| `Staking.LockValueExactIff` | account/stakeAccount.go:39-46 | the int64 figure of a lock is the exact one if and only if the overshoot of its release stays in the lower half of its window |
| `Staking.OverflowLocksAgain` | account/stakeAccount.go:39-46 | a lock released in one block is locked again 94 blocks later |
| `Staking.SoundCovers` | account/stakeAccount.go:28-48 | a sound account covers what is locked now and at every later height, and the figure computed there is exact |
| `Staking.StakingAccounts.Run` | account/stakeAccount.go:28-155 | every sequence of stakes and unstakes at non-decreasing heights is carried out one by one until one panics; the account is what they make of it, and the stake covers what is locked then and at every later height, the int64 figure being exact as long as no release overflows |
| `Rewards.RewardFits` | account/reward.go:8-16 | the reward is never negative and never more than what is left to mint, whatever the rounding |
| `Rewards.OperatorPartFits` | blocks/processBlock.go:304-308 | a percentage of at most 50 takes no more than the reward |
| `Rewards.SharesFit` | blocks/processBlock.go:315-334 | the truncated shares of all stakers never add up to more than the reward: the branch the code says should not happen does not |
| `Rewards.FloatIsFair` | blocks/processBlock.go:304-334 | double-precision arithmetic meets all that the ledger needs of it |
| `Ledger.Ledger.AddBalance` | blocks/blockAccountState.go:9-29 | changes one balance, and only if it stays non-negative |
| `Ledger.Ledger.GetSupplyInAccounts` | blocks/blockAccountState.go:31-39 | the sum of all balances, in any order of the map |
| `Ledger.Ledger.GetSupplyInStakedAccounts` | blocks/blockAccountState.go:41-54 | the sums of all stakes and rewards |
| `Ledger.Ledger.ProcessMultiSignAndEscrow` | blocks/processTransaction.go:118-147 | refused exactly for an account that has such terms, a delay beyond the limit or more signatures than addresses; otherwise sets exactly the terms given for the recipient, and no balance changes |
| `Ledger.Ledger.ProcessTransaction` | blocks/processTransaction.go:149-268 | a transaction that succeeds makes exactly the entries of its kind in balances, stakes and rewards, and takes its fee out of the total unless its path charges none; a transfer succeeds exactly if its sender can pay at that point and the new terms are allowed |
| `Ledger.Ledger.ProcessTransactionsEscrow` | blocks/processTransaction.go:370-421 | however it ends, the total is unchanged and the balances differ by held transfers paid in full, each once and out of the pool, and none before its sender's delay is over; while the pools are in order these are the due ones, and if none is held again they are paid up to the first that its sender does not have |
| `Ledger.Ledger.ProcessTransactionsMultiSign` | blocks/processTransaction.go:270-368 | the transfer pointed at is paid exactly with enough confirmations and approvals, within a week, after its delay and if its sender has the amount; otherwise nothing is; the total is unchanged, and the stored signers are what the count leaves of them |
| `Approvals.Count` | blocks/processTransaction.go:309-336 | the approvals are as many as signers and senders have in common, each counted as often as it is in both |
| `Approvals.CountsSignersIff` | blocks/processTransaction.go:309-336 | that is the number of signers that approved if and only if none is listed twice and approved twice |
| `Approvals.SignersKeptIff` | blocks/processTransaction.go:310-331 | the stored signers are as before if and only if every approval was by the first or the last one left |
| `Approvals.OneApprovesTwice` | blocks/processTransaction.go:310-331 | of three signers the second approves; then the third can approve the next transfer twice |
| `Ledger.FindMain` | blocks/processTransaction.go:278-291 | the transaction with the hash, or an empty one exactly if there is none |
| `Ledger.MissingMainGoesOn` | blocks/processTransaction.go:278-305 | a confirmation of a transaction that nobody sent goes through at height 1 and is refused at height 60481 |
| `Ledger.Collect` | account/stakeAccount.go:319-346 | lists every account of the table once, with their sum, and an operational account with the highest stake |
| `Ledger.Ledger.PayRewards` | blocks/processBlock.go:293-334 | fails exactly without stakes, with more than 50 percent, with a negative part or an unknown operator; otherwise pays out exactly the reward |
| `Ledger.SplitSums` | blocks/processBlock.go:310-334 | the split adds exactly the reward to the rewards and nothing to the stakes |
| `Ledger.SplitAt` | blocks/processBlock.go:317-326 | every account but the operator's gets its share and nothing else |
| `Ledger.Ledger.CheckBlockTransfers` | blocks/processBlock.go:151-256 | accepts exactly when every transaction is in order and passes the staking check, every sender can cover its transactions up to each point out of what it holds, and the supply is the last one and the reward |
| `Ledger.Ledger.CheckStakes` | blocks/processBlock.go:203-221 | the staking check is made against the sender's sums so far, and the local copies go on holding everyone's |
| `BlockChecks.SumsStep` | blocks/processBlock.go:203-215 | the local copies are, for everyone, the stake and the rewards in the table of the first delegated account dealt with, plus the sum of the sender's amounts and of its fees so far |
| `Ledger.Ledger.CheckTransactions` | blocks/processBlock.go:165-245 | the loop over the transactions accepts exactly when all of them pass, and adds up the fees |
| `Ledger.Ledger.ProcessAll` | blocks/processBlock.go:264-292 | takes out the charged fees and nothing else; a block of ordinary transfers is carried out up to the first whose sender cannot pay at that point or whose terms are not allowed, and the balances are those of carrying it out |
| `Ledger.Ledger.ProcessBlockTransfers` | blocks/processBlock.go:258-337 | the total changes by the reward less the charged fees; a block of ordinary transfers fails exactly if one of them does not go through behind the held ones that were paid, or the reward cannot be paid out; one that the check found covered, none of whose senders has a held transfer, only for the reward |
| `Transfers.CoveredGoesThrough` | blocks/processBlock.go:232-247 | plain transfers that their senders cover beforehand go through behind held transfers of others |
| `Ledger.HeldTransferStarves` | services/helperReset.go:45-120 | a first block is refused and leaves its held transfer in the pool; a second one would be accepted but for it, and is refused |
| `Ledger.Ledger.CheckBlockAndTransferFunds` | blocks/processBlock.go:380-453 | an accepted block passed the check and follows a ledger that balances, never lowers the supply nor lifts it above the maximum, and leaves balances, stakes, rewards and fees that make up the supply, but for fees counted and not charged; a block of ordinary transfers is accepted exactly if it passes the check, goes through and its reward can be paid out |
| `Ledger.Ledger.Extend` | services/nonceService/onmessage.go:228-233 | over every chain of blocks: the verdict on each block is that of the check in the state the blocks before it lead to, exact for blocks of ordinary transfers; refused blocks change no account and no stake; the books are off by exactly the uncharged fees of the last accepted block, and no block before it had any |
| `BlockChecks.BalancesIffCharged` | blocks/processTransaction.go:206-230 | with fees that are not negative a block balances if and only if every transaction has no fee or takes a path that charges one |
| `BlockChecks.UnchargedHappens` | blocks/processTransaction.go:212-217 | a positive amount to a reward account is not charged |
| `Ledger.Ledger.AmountsFit` | blocks/processBlock.go:402-411 | while the books balance every stored amount lies between 0 and the supply |
| `PoolHeap.SwapRearranges` | transactionsPool/basePool.go:9-13 | a swap keeps the entries, and every item's own index |
| `PoolHeap.Up` | transactionsPool/basePool.go:3-28 | sifting up restores the heap; the root changes only for a larger item |
| `PoolHeap.Down` | transactionsPool/basePool.go:3-28 | sifting down restores the heap or leaves everything as it was |
| `PoolHeap.Push` | transactionsPool/poolTx.go:101 | the queue stays a max-heap with one entry more |
| `PoolHeap.Pop` | transactionsPool/poolTx.go:103 | the first entry leaves, the rest stays a max-heap |
| `PoolHeap.Remove` | transactionsPool/poolTx.go:152 | exactly the entry at the position leaves |
| `Pool.TransactionPool.UpdateIndices` | transactionsPool/poolTx.go:54-64 | every queued hash gets its exact position; other keys stay |
| `Pool.TransactionPool.AddTransaction` | transactionsPool/poolTx.go:78-110 | within capacity adds exactly the new transaction at its priority; when full, the pool stays exact if and only if the new transaction is the one evicted |
| `Pool.TransactionPool.RemoveTransactionByHash` | transactionsPool/poolTx.go:147-158 | removes precisely the transaction with that hash from queue and maps |
| `Pool.TransactionPool.PopTransactionByHash` | transactionsPool/poolTx.go:180-194 | the same, and returns it |
| `Pool.TransactionPool.PeekTransactions` | transactionsPool/poolTx.go:111-145 | with n at least the pool size shows exactly the transactions asked for: all, the due ones, or those of one hash |
| `Pool.ShownExactly` | transactionsPool/poolTx.go:121-142 | and each of them once |
| `Pool.TransactionPool.SizesAgree` | transactionsPool/poolTx.go:117-119 | both maps are as long as the queue |
| `Pool.TransactionPool.BanTransactionByHash` | transactionsPool/poolTx.go:160-169 | the pool stays exact if and only if the hash is not queued or the ban count is within the limit |
| `Pool.TransactionPool.Run` | transactionsPool/poolTx.go:78-194 | every sequence of additions, removals and pops within capacity keeps heap, index map and transactions exact: the pool holds what was added and neither banned, there before nor taken out again, each at its priority |
| `Merkle.NewMerkleTree` | pubkeys/pubKeysTrie.go:44-89 | the root is the pairwise hash of the padded levels, the leaves are exactly the hashes of the addresses, and the level loop ends |
| `Merkle.RootEqualIff` | pubkeys/pubKeysTrie.go:44-68 | two lists of any lengths have the same root if and only if they unfold to the same list, unless two of the inputs hashed for them collide |
| `Merkle.UnfoldStart` | pubkeys/pubKeysTrie.go:53-56 | unfolding only adds to the end of a list |
| `Merkle.RootInjective` | pubkeys/pubKeysTrie.go:44-68 | lists of equal length with equal roots are equal, unless two of the inputs hashed for them collide |
| `Merkle.PaddingCollides` | pubkeys/pubKeysTrie.go:53-56 | an odd list and the list that repeats its last address have the same root |
| `Merkle.ContainsAddress` | pubkeys/pubKeysTrie.go:107-127 | found exactly if some node carries the hash, at the returned depth |
| `Merkle.OnlyLeavesMatch` | pubkeys/pubKeysTrie.go:107-127 | the hash of an address is not that of an inner node, unless two hashed inputs collide |
| `Merkle.IsAddressInTree` | pubkeys/pubKeysTrie.go:91-105 | on a non-empty tree exactly the listed addresses are found, unless two hashed inputs collide |
| `OraclePrice.PriceOfSet` | oracles/oraclesDefinition.go:263-282 | the price depends only on which prices were reported, not on their order |
| `OraclePrice.NoneOutweighs` | oracles/oraclesDefinition.go:263-282 | with three reports or more the price lies between two of the others, whichever report is looked at, if the middle sum fits |
| `OraclePrice.OverflowingMiddle` | oracles/oraclesDefinition.go:276-282 | for positive reports the price is not positive otherwise |
| `OraclePrice.OverflowingMiddleHappens` | oracles/oraclesDefinition.go:276-282 | four reports of the largest int64 overflow |
| `Oracle.DataRoundTrip` | oracles/oraclesDefinition.go:85-129 | parsing the generated data gives back the reports |
| `Oracle.ParsePriceData` | oracles/oraclesDefinition.go:104-129 | succeeds exactly for whole records; prices, stake sum and reports are those of the records |
| `Oracle.VerifyPriceOracle` | oracles/oraclesDefinition.go:226-254 | accepts exactly the agreed price: zero without two thirds of the stake, the trimmed median with it |
| `Oracle.StakeIsOfReportersIff` | oracles/oraclesDefinition.go:104-129 | the stake held against two thirds is that of the reporting accounts if and only if none of them with a stake is in the data twice |
| `Oracle.ThriceIsAccepted` | oracles/oraclesDefinition.go:226-254 | one account with more than two ninths of the stake, in the data three times, sets the price alone |
| `Oracle.PriceOracles.SavePriceOracle` | oracles/oraclesDefinition.go:33-57 | heights of stored reports never fall |
| `Oracle.PriceOracles.GeneratePriceData` | oracles/oraclesDefinition.go:85-102 | the data hold exactly the fresh reports, each once |
| `Oracle.PriceOracles.CalculatePriceOracle` | oracles/oraclesDefinition.go:256-274 | returns the agreed price for them, and zero when none is established |
| `Oracle.OrderFree` | oracles/oraclesDefinition.go:91-100 | the agreed price does not depend on the order in which the map yields the reports |
| `Oracle.PriceOracles.CalculatedIsVerified` | oracles/oraclesDefinition.go:226-274 | whatever is calculated, the zero without a quorum included, is the price agreed on for the fresh reports and for what is parsed from the data, and is accepted where the stakes are those recorded |

## Left out

- `address` values of the ABI, which the array case of packElement does not handle in this fork, parsing of type strings, Go reflection, struct tags and the copying of results into Go structs.
- AbiRoundTrip.UnpackPack: stated for encodings below 2^63 bytes, the range of Go's slice lengths.
- RLP values other than byte strings and lists: typed integers, booleans, big integers, pointers, structs, Raw, and the split and count helpers of rlp/raw.go, which would only add easy members.
- RlpStream.DecodeBytes: stated for inputs below 2^63 bytes, the range of Go's slice lengths.
- EvmInterpreter.Evm.ExecuteStack: does not model the words that arithmetic, hashing and queries about accounts and blocks compute; they may be anything.
- EvmInterpreter.Evm.CreateContract: the value transfer and balance checks are commented out in the source, and the code check of the London rules is not part of this model.
- The gas functions of EIP-2929 and EIP-3529, which are referenced in core/evm/eips.go and not part of this model; the tables from Berlin on; the parts of the state database other than storage slots and snapshots; precompiles, hashing and signatures.
- The lexer of the assembler: programs are token streams whose lines end in a line-end token. Addresses of 2^32 and more make the source panic.
- Asm.Assemble: validity of labels is stated for programs whose jumps take labels only and that use no bare PUSHn mnemonic.
- The DEX, smart-contract evaluation inside blocks, and their effect on balances: recipients from 512 on are processed as the transaction code does, which is not at all.
- Ledger.Peek: once a pool has been full, which breaks its maps, the ledger sees it as anything that was put into it, in any order and selection, each once, so the results hold however it behaves from then on; until then it shows exactly what is asked for, in any order.
- Int64 overflow of fees and amounts in the ledger: transactions whose fee plus the size of the amount does not fit are out of scope.
- Staking details per height and time stamps.
- Locks and goroutines: every operation is taken as one step.
- The transaction Merkle tree, the random oracle, voting, encryption switching, byte codecs of accounts and transactions, databases, networking, wallet, user interfaces and statistics.
