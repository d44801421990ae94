# Alloy x64 lowering sequences, modelled in Dafny

Alloy is the JIT inside xenia. Its x86-64 back end lowers each IR instruction by
looking up the opcode in a table (`RegisterSequences` in
`src/alloy/backend/x64/lowering/lowering_sequences.cc`). Each entry does three
things:

- it tests the operand type signature and whether each operand is a constant;
- it emits a short x86 sequence, or hits `UNIMPLEMENTED_SEQ` / `ASSERT_INVALID_TYPE`;
- it advances to the next instruction.

This project models that table for these opcodes:

- control flow: RETURN, RETURN_TRUE, BRANCH, BRANCH_TRUE, BRANCH_FALSE;
- calls: CALL, CALL_TRUE, CALL_INDIRECT, CALL_INDIRECT_TRUE, with the helpers
  `CallNative`, `IssueCall` and `IssueCallIndirect`;
- conversions: ZERO_EXTEND, SIGN_EXTEND, TRUNCATE;
- memory: LOAD, STORE;
- comparisons: IS_TRUE, IS_FALSE, COMPARE_EQ … COMPARE_UGE;
- arithmetic: MUL, MUL_HI, ADD_CARRY;
- bit operations: BYTE_SWAP, CNTLZ.

It then proves what the emitted code computes.

The model has four layers:

- **Values** (`bits.dfy`, `flags.dfy`). Register contents are naturals below
  2^w for a `Width` of 8/16/32/64. This file also defines the bit functions the
  instructions compute (sign extension, byte reversal, highest set bit) and a
  flags record with the condition codes of setcc/jcc.
- **Machine** (`machine.dfy`). An `Op` datatype holds the instruction forms
  the table emits. `Step`/`Steps`/`Exec` interpret a sequence over a `State`:
  general registers with the x86 sub-register write rules, where a 32-bit write
  zeroes the upper half and 8/16-bit writes merge. The state also has flags,
  byte-addressed guest and host memory, four-lane XMM registers and a log of
  calls and guest writes.
  - A `call` is resolved by a `callee` parameter, which gives what the callee
    leaves in rax, rcx, rdx and r8. The model assumes a callee changes nothing
    else: no memory, no flags, no xmm register and no other general register.
  - Registers the allocator binds to operands are symbolic: `Dest`, `Src1`,
    `Src2`, `Src3`, `AddrOff`. The fixed registers are rax, rcx, rdx, r8,
    rsp and rbx; only ADD_CARRY's `bh` read looks at rbx.
  - Jumps end a run with an `Exit`.
- **Selection** (`ir.dfy`, `lowering.dfy`). One function per opcode maps an
  instruction to `Emitted(ops) | Unimplemented | InvalidType | Unencodable`. It uses the
  source's signature tests in the source's order. `Select` dispatches on the
  opcode. `LowerBlock` and `LowerFunction` lower a body, giving RETURN its
  position.
- **Properties** (`calls.dfy`, `control.dfy`, `extend.dfy`, `compare.dfy`,
  `arith.dfy`, `byteswap.dfy`, `cntlz.dfy`, `memory.dfy`, `store.dfy`). Each
  implemented integer path gets a lemma: running the emitted code gives the IR
  operation's result.

Runtime collaborators are parameters of the model:

- the symbol and address resolvers;
- the memory tracers;
- the register-access callback chain;
- the code that calls return to.

The table's `LoadClock`, `ResolveFunctionSymbol` and `ResolveFunctionAddress`
bodies are not part of this model. `DTRACE` is defined as 1 (line 34), so the
memory-trace calls are part of every modelled LOAD and STORE.

Where the code departs from its evident intent, the model follows the code. Each
such place gets:

- a lemma stating what the code does;
- a concrete counterexample;
- a corrected definition with the intended property proved (see "## Findings").

The selection functions themselves (`Lowering.Select*`) model the code as
written.

## Model

| member | source | states |
|---|---|---|
| Flags.Negate | src/alloy/backend/x64/lowering/lowering_sequences.cc:1161-1280 | the negated condition code holds on exactly the flag states where the original fails |
| Flags.NegateInvolutive | src/alloy/backend/x64/lowering/lowering_sequences.cc:1161-1280 | negating a condition code twice gives it back |
| Flags.CmpUnsigned | src/alloy/backend/x64/lowering/lowering_sequences.cc:1233-1280 | after `cmp a, b`, b/be/a/ae hold exactly when the w-bit unsigned values are <, <=, >, >= |
| Flags.CmpSigned | src/alloy/backend/x64/lowering/lowering_sequences.cc:1185-1232 | after `cmp a, b`, l/le/g/ge hold exactly when the two's-complement values are <, <=, >, >= |
| Flags.SahfFlags | src/alloy/backend/x64/lowering/lowering_sequences.cc:1385-1413 | `sahf` sets CF to bit 0 of ah and leaves OF alone |
| Lowering.FirstHandler | src/alloy/backend/x64/lowering/lowering_sequences.cc:786-806 | the descriptor found for a constant address claims it, and no earlier descriptor in the chain does; none is found exactly when none claims it |
| Memory.Handlers | src/alloy/backend/x64/lowering/lowering_sequences.cc:906-940 | a descriptor is in the list STORE calls exactly when it is in the chain and claims the address |
| Memory.FirstIsHead | src/alloy/backend/x64/lowering/lowering_sequences.cc:786-806 | the descriptor LOAD uses is the first of those STORE calls, and one exists exactly when that list is non-empty |
| Memory.FirstHandlerUnique | src/alloy/backend/x64/lowering/lowering_sequences.cc:786-806 | any result meeting the first-match conditions is the one the scan returns |
| Memory.FindHandler | src/alloy/backend/x64/lowering/lowering_sequences.cc:786-806 | the `while (cbs)` scan as a loop returns the first claiming descriptor and its index, or reports none |
| Memory.ReadAfterWrite | src/alloy/backend/x64/lowering/lowering_sequences.cc:954-1022 | reading back the n bytes just stored gives the value modulo 256^n |
| Memory.ReadPastWrite | src/alloy/backend/x64/lowering/lowering_sequences.cc:954-1022 | a store leaves every byte range it does not overlap unchanged |
| Memory.AddressSetupEffect | src/alloy/backend/x64/lowering/lowering_sequences.cc:808-819 | the direct address is membase + (guest address mod 2^32); only eax or the address register changes, and the latter keeps its low 32 bits |
| Memory.LoadByCallback | src/alloy/backend/x64/lowering/lowering_sequences.cc:786-803 | a LOAD from a claimed constant address makes one call, to the first claiming descriptor's read with its context and the 64-bit address; dest gets the returned rax; the sequence logs no memory write and, under the callee assumption, guest memory is unchanged |
| Memory.LoadDirect | src/alloy/backend/x64/lowering/lowering_sequences.cc:808-859 | any other integer LOAD puts the little-endian w-byte value at membase + addr32 into dest and calls the load tracer once, with that address in rdx and the value (at dest's width) in r8 |
| Store.WriteArgumentCoverage | src/alloy/backend/x64/lowering/lowering_sequences.cc:913-933 | the write argument is emitted exactly for a constant or an I8/I16/I64 register; an I32 register gets `movzx r8, src32`, which has no x86 encoding (`Unencodable`); anything else is an invalid type |
| Store.WriteArgumentFixedLoads | src/alloy/backend/x64/lowering/lowering_sequences.cc:913-933 | with the I32 case corrected to `mov r8d, src32`, the write argument is emitted exactly for a constant or integer register, and leaves only r8 changed, holding the constant's 64 bits or the register zero-extended |
| Store.StoreCallbackFixedAgrees | src/alloy/backend/x64/lowering/lowering_sequences.cc:913-937 | for every value except an I32 register, the corrected callback call is the table's own |
| Store.StoreCallbacksCoverage | src/alloy/backend/x64/lowering/lowering_sequences.cc:906-940 | the callback part is emitted exactly when the value is encodable or no descriptor claims the address; a writable value it refuses is refused as unencodable |
| Store.StoreCallbacksRun | src/alloy/backend/x64/lowering/lowering_sequences.cc:906-940 | for an encodable value, every claiming descriptor's write is called in chain order, with the 8-byte-reversed value in r8; the sequence logs no memory write and, under the callee assumption, guest memory, the xmm registers and the operand registers are unchanged; after at least one call the context and membase are reloaded |
| Store.SelectStoreCoverage | src/alloy/backend/x64/lowering/lowering_sequences.cc:902-1022 | an integer STORE is emitted exactly when no descriptor claims a constant address or the value is encodable, and is otherwise refused as unencodable |
| Store.Store32AsWrittenCounterexample | src/alloy/backend/x64/lowering/lowering_sequences.cc:926 | storing an I32 register to 0x180, which a descriptor claims, cannot be assembled |
| Store.Store32FixedExample | src/alloy/backend/x64/lowering/lowering_sequences.cc:906-1022 | with the corrected argument load, the same store calls the first descriptor's write with the byte-reversed 64-bit zero extension of the register and leaves memory alone |
| Store.NoClaimNoCallbacks | src/alloy/backend/x64/lowering/lowering_sequences.cc:906-940 | with no claiming descriptor the callback part emits nothing |
| Store.DirectStoreRuns | src/alloy/backend/x64/lowering/lowering_sequences.cc:942-1022 | the direct part writes the w-byte value at membase + addr32, logs exactly that write and then one tracer call with address and value |
| Store.SelectStoreRuns | src/alloy/backend/x64/lowering/lowering_sequences.cc:902-1022 | a whole integer STORE whose callback part assembles: the callback calls, then the direct write, then the tracer call, with nothing else logged |
| Store.StoreThenLoad | src/alloy/backend/x64/lowering/lowering_sequences.cc:782-1022 | a LOAD of the same type and address after an unclaimed STORE reads back the stored value |
| Store.StoreAsWrittenCounterexample | src/alloy/backend/x64/lowering/lowering_sequences.cc:906-954 | with two descriptors claiming 0x180, STORE calls both write callbacks and then also writes guest memory |
| Store.StoreFixedByCallback | src/alloy/backend/x64/lowering/lowering_sequences.cc:786-803 | the corrected STORE to a claimed address makes only the one call LOAD would make, to the first claiming descriptor, and logs no memory write |
| Store.StoreFixedAgrees | src/alloy/backend/x64/lowering/lowering_sequences.cc:942-1022 | for every unclaimed store the corrected STORE emits exactly the original code |
| Store.StoreFixedExample | src/alloy/backend/x64/lowering/lowering_sequences.cc:906-940 | on the two-descriptor example the corrected STORE makes the single first-descriptor call |
| Calls.CallNativeEffect | src/alloy/backend/x64/lowering/lowering_sequences.cc:61-66 | `CallNative` logs one call to the target and no memory write; rcx and rdx are restored from [rsp] and [rcx+8]; under the callee assumption, memory and operand registers are kept |
| Calls.ReloadRestores | src/alloy/backend/x64/lowering/lowering_sequences.cc:64-65 | the two-instruction reload re-establishes the context and membase registers and changes nothing else the code relies on |
| Calls.CallThenReload | src/alloy/backend/x64/lowering/lowering_sequences.cc:112-115 | `call rax` plus reload logs the call, keeps the callee's rax/r8 and restores rcx/rdx |
| Calls.IssueCallShape | src/alloy/backend/x64/lowering/lowering_sequences.cc:91-116 | every emitted `call` is followed by the reload; a tail call ends `add rsp, 0x40; jmp rax`; an extern target starts by loading arg0, arg1 and the handler and calls nothing when tail |
| Calls.IssueCallIndirectShape | src/alloy/backend/x64/lowering/lowering_sequences.cc:118-138 | the same reload and tail rules for indirect calls, and the `mov rdx, target` is emitted exactly when the target is not already in rdx |
| Calls.ExternCallRuns | src/alloy/backend/x64/lowering/lowering_sequences.cc:94-115 | a non-tail extern call makes exactly one call, to the handler with arg0 in rdx and arg1 in r8, and ends with context and membase restored |
| Calls.GenericCallRuns | src/alloy/backend/x64/lowering/lowering_sequences.cc:99-115 | a non-tail generic call calls the symbol resolver with the function info in rdx, then calls the returned code with the saved context and membase |
| Calls.ExternTailCallRuns | src/alloy/backend/x64/lowering/lowering_sequences.cc:94-111 | an extern tail call logs nothing, pops 0x40 bytes and jumps to the handler |
| Calls.GenericTailCallRuns | src/alloy/backend/x64/lowering/lowering_sequences.cc:99-111 | a generic tail call makes only the resolver call, pops 0x40 bytes and jumps to the resolved code |
| Calls.IndirectCallRuns | src/alloy/backend/x64/lowering/lowering_sequences.cc:118-138 | a non-tail indirect call hands the target to the address resolver in rdx, then calls the result with the saved context and membase |
| Calls.IndirectTailCallRuns | src/alloy/backend/x64/lowering/lowering_sequences.cc:118-133 | an indirect tail call makes only the resolver call and jumps to the resolved code |
| Calls.IndirectTailPops | src/alloy/backend/x64/lowering/lowering_sequences.cc:130-133 | an indirect tail call leaves rsp 0x40 higher |
| Control.ReturnExits | src/alloy/backend/x64/lowering/lowering_sequences.cc:270-278 | RETURN jumps to the epilogue exactly when the instruction or its block has a successor, and otherwise falls through |
| Control.ReturnFallsThroughOnlyAtEnd | src/alloy/backend/x64/lowering/lowering_sequences.cc:270-278 | in a lowered body, RETURN falls through only as the last instruction of the last block and jumps everywhere else |
| Control.LowerBlockEmittedIff | src/alloy/backend/x64/lowering/lowering_sequences.cc:30-31 | a block lowers exactly when each of its instructions lowers at its own position |
| Control.LowerFunctionEmittedIff | src/alloy/backend/x64/lowering/lowering_sequences.cc:30-31 | a body lowers exactly when every instruction of every block lowers at its position |
| Control.ReturnTrueExits | src/alloy/backend/x64/lowering/lowering_sequences.cc:280-285 | RETURN_TRUE leaves for the epilogue exactly when its integer value is nonzero, touching no register, memory or log |
| Control.BranchExits | src/alloy/backend/x64/lowering/lowering_sequences.cc:291-296 | BRANCH always jumps to its label, whatever its position |
| Control.BranchIfExits | src/alloy/backend/x64/lowering/lowering_sequences.cc:298-312 | BRANCH_TRUE jumps exactly when the value is nonzero, BRANCH_FALSE exactly when it is zero; otherwise they fall through |
| Control.WhenTrueRuns | src/alloy/backend/x64/lowering/lowering_sequences.cc:242-251 | the `jz .x; body; .x:` skip runs the body exactly when the tested value is nonzero and then falls through |
| Control.CallTrueRuns | src/alloy/backend/x64/lowering/lowering_sequences.cc:242-251 | CALL_TRUE performs the non-tail call exactly when its condition is nonzero |
| Control.CallIndirectTrueRuns | src/alloy/backend/x64/lowering/lowering_sequences.cc:259-268 | CALL_INDIRECT_TRUE performs the indirect call exactly when its condition is nonzero |
| Control.CallTrueTailRuns | src/alloy/backend/x64/lowering/lowering_sequences.cc:242-251 | CALL_TRUE with the tail flag falls through with only the flags changed when its condition is zero, and otherwise runs exactly as the unguarded tail call from the state after the test |
| Control.CallIndirectTrueTailRuns | src/alloy/backend/x64/lowering/lowering_sequences.cc:259-268 | CALL_INDIRECT_TRUE with the tail flag falls through when its condition is zero, and otherwise runs exactly as the unguarded indirect tail call from the state after the test |
| Extend.ZeroExtendCoverage | src/alloy/backend/x64/lowering/lowering_sequences.cc:350-398 | ZERO_EXTEND is lowered exactly for the six widening integer pairs; everything else is Unimplemented |
| Extend.SignExtendCoverage | src/alloy/backend/x64/lowering/lowering_sequences.cc:400-448 | SIGN_EXTEND is lowered exactly for the six widening integer pairs; everything else is Unimplemented |
| Extend.TruncateCoverage | src/alloy/backend/x64/lowering/lowering_sequences.cc:450-498 | TRUNCATE is lowered exactly for the six narrowing integer pairs; everything else is Unimplemented |
| Extend.Mov32Zeroes | src/alloy/backend/x64/lowering/lowering_sequences.cc:386-392 | `mov r32, r32` leaves the 32-bit value zero-extended in the full 64-bit register |
| Extend.ZeroExtendComputes | src/alloy/backend/x64/lowering/lowering_sequences.cc:350-398 | dest, read at its width, holds the source's unsigned value; no other register changes |
| Extend.SignExtendComputes | src/alloy/backend/x64/lowering/lowering_sequences.cc:400-448 | dest holds the source's two's-complement value re-encoded at the wider width, so its signed reading is unchanged; no other register changes |
| Extend.TruncateComputes | src/alloy/backend/x64/lowering/lowering_sequences.cc:450-498 | dest holds the source modulo 2^w of the destination width; no other register changes |
| Extend.NarrowOfWide | src/alloy/backend/x64/lowering/lowering_sequences.cc:450-498 | reducing modulo a wider width first does not change the low bits |
| Extend.ZeroExtendThenTruncate | src/alloy/backend/x64/lowering/lowering_sequences.cc:350-498 | zero-extending and then truncating back to the source type returns the original value |
| Extend.SignExtendThenTruncateBack | src/alloy/backend/x64/lowering/lowering_sequences.cc:400-498 | sign-extending and then truncating back to the source type returns the original value |
| Compare.CondOfMeansRelation | src/alloy/backend/x64/lowering/lowering_sequences.cc:1161-1280 | after `cmp`, the setcc each COMPARE_* opcode picks holds exactly when its relation holds between the operands |
| Compare.InvertedIsNegation | src/alloy/backend/x64/lowering/lowering_sequences.cc:1161-1280 | the inverted setcc of each opcode is the negated condition and holds exactly when the relation fails |
| Compare.ConditionSignedness | src/alloy/backend/x64/lowering/lowering_sequences.cc:1185-1280 | signed opcodes use l/le/g/ge and unsigned ones b/be/a/ae, inverted or not |
| Compare.CompareComputes | src/alloy/backend/x64/lowering/lowering_sequences.cc:1161-1280 | the 8-bit dest holds 1 exactly when the relation holds (XOR the invert request), else 0; no other register, memory or log changes |
| Compare.IsTrueComputes | src/alloy/backend/x64/lowering/lowering_sequences.cc:1141-1159 | IS_TRUE leaves 1 exactly when the value is nonzero and IS_FALSE exactly when it is zero; nothing else changes |
| Arith.LowHalfAgnostic | src/alloy/backend/x64/lowering/lowering_sequences.cc:1467-1491 | the low half of the double-width product is the same for mul and imul: (a*b) mod 2^w |
| Arith.MulComputes | src/alloy/backend/x64/lowering/lowering_sequences.cc:1467-1491 | MUL on integers leaves (src1 * multiplier) mod 2^w in dest, for mul and imul alike; the multiplier is src2 itself whenever src2 is a register or a constant whose value fits in 32 bits |
| Arith.HighHalfFits | src/alloy/backend/x64/lowering/lowering_sequences.cc:1515-1541 | the high half is floor(a*b / 2^w) unsigned and the signed floor quotient when signed |
| Arith.HighHalfMeaning | src/alloy/backend/x64/lowering/lowering_sequences.cc:1515-1541 | MUL_HI's intended result is floor(a*b / 2^w) for mul and floor(sa*sb / 2^w) for imul |
| Arith.MulHiWideAsWritten | src/alloy/backend/x64/lowering/lowering_sequences.cc:1515-1541 | from 16 bits up the table's MUL_HI is the corrected one |
| Arith.MulHiFixedComputes | src/alloy/backend/x64/lowering/lowering_sequences.cc:1515-1541 | the corrected MUL_HI leaves the high half of src1 * multiplier in dest for every integer width; that is the high half of src1 * src2 whenever src2 is a register or a constant whose value fits in 32 bits |
| Arith.MulHi8ReadsDl | src/alloy/backend/x64/lowering/lowering_sequences.cc:1515-1541 | the 8-bit MUL_HI as written leaves dl in dest: the old rdx byte, or the constant's low byte, whatever the product |
| Arith.MulHi8Counterexample | src/alloy/backend/x64/lowering/lowering_sequences.cc:1515-1541 | 0x10 * 0x10 with rdx = 0: the high byte is 1, the table gives 0, the corrected sequence gives 1 |
| Arith.MultiplierIsSrc2 | src/alloy/backend/x64/lowering/lowering_sequences.cc:1467-1491 | a constant multiplier passed through its low 32 bits equals src2 whenever src2's value at dest's width fits in 32 bits |
| Arith.AddendIsSrc2 | src/alloy/backend/x64/lowering/lowering_sequences.cc:1385-1413 | a constant addend passed as a sign-extended 32-bit immediate equals src2 whenever it fits that form |
| Arith.AddCarryComputes | src/alloy/backend/x64/lowering/lowering_sequences.cc:1385-1413 | ADD_CARRY as written leaves (src1 + addend + bit 0 of the byte it loads into ah) mod 2^w in dest, and CF is the carry out of that sum; that byte is src3's low byte (or the constant's) unless src3 is in rbp, rsi or rdi, where `Reg8(src3.getIdx())` names ch, dh or bh; the addend is src2 itself whenever src2 is a register, a constant below 64 bits, or a 64-bit constant that is a sign-extended 32-bit value |
| Arith.AddCarryFixedComputes | src/alloy/backend/x64/lowering/lowering_sequences.cc:1385-1413 | with the carry loaded through `src3.cvt8()`, ADD_CARRY gives the exact sum src1 + addend + carry bit in dest and CF for every register src3 is in, and the IR's src1 + src2 + carry whenever the addend fits |
| Arith.AddCarryFixedAgrees | src/alloy/backend/x64/lowering/lowering_sequences.cc:1389-1408 | the corrected ADD_CARRY is the table's whenever src3 is a constant or a register other than rbp, rsi and rdi |
| Arith.AddCarryRsiCounterexample | src/alloy/backend/x64/lowering/lowering_sequences.cc:1404-1408 | with src3 = 0 in rsi, src1 = src2 = 0 and 0x100 in rdx, the table's sequence leaves 1 in dest and the corrected one 0 |
| ByteSwap.ByteSwapCoverage | src/alloy/backend/x64/lowering/lowering_sequences.cc:1981-2037 | BYTE_SWAP is lowered exactly for I16/I32/I64 and V128 register pairs; anything else is an invalid type |
| ByteSwap.Swap16Computes | src/alloy/backend/x64/lowering/lowering_sequences.cc:1982-1998 | `mov ax, s1; xchg ah, al; mov d, ax` swaps the two bytes |
| ByteSwap.ByteSwapComputes | src/alloy/backend/x64/lowering/lowering_sequences.cc:1982-2020 | the integer forms leave the source's bytes in reverse order in dest |
| ByteSwap.ByteSwapTwice | src/alloy/backend/x64/lowering/lowering_sequences.cc:1982-2020 | swapping dest again in place restores the original value |
| ByteSwap.ByteSwapExample | src/alloy/backend/x64/lowering/lowering_sequences.cc:1999-2009 | 0x12345678 becomes 0x78563412 |
| ByteSwap.ShuffleInPlaceInvolution | src/alloy/backend/x64/lowering/lowering_sequences.cc:36 | `shufps x, x, 0x1B` applied twice is the identity |
| ByteSwap.VecSwapTraps | src/alloy/backend/x64/lowering/lowering_sequences.cc:2021-2023 | the V128 form starts with an int3 and stops there |
| ByteSwap.VecSwapInPlace | src/alloy/backend/x64/lowering/lowering_sequences.cc:2028-2030 | in place, the shuffle reverses the four dword lanes |
| ByteSwap.VecSwapAsWritten | src/alloy/backend/x64/lowering/lowering_sequences.cc:2026-2027 | with dest distinct from src1, `shufps d, s1, 0x1B` gives lanes 3 and 2 of the old dest and lanes 1 and 0 of src1 |
| ByteSwap.VecSwapCounterexample | src/alloy/backend/x64/lowering/lowering_sequences.cc:2026-2027 | from dest = 0 and src1 = (1,2,3,4) the result (0,0,2,1) is not src1 reversed |
| ByteSwap.VecSwapFixedReverses | src/alloy/backend/x64/lowering/lowering_sequences.cc:2021-2033 | after its leading trap, the corrected V128 form (copy, then in-place shuffle) reverses src1's lanes for either register assignment |
| ByteSwap.VecSwapFixedTwice | src/alloy/backend/x64/lowering/lowering_sequences.cc:2021-2033 | the corrected V128 swap followed by an in-place one gives back src1 |
| Cntlz.CntlzCoverage | src/alloy/backend/x64/lowering/lowering_sequences.cc:2039-2089 | CNTLZ is lowered exactly for I8/I16/I32/I64 register sources; anything else is Unimplemented |
| Cntlz.CntlzNonzero | src/alloy/backend/x64/lowering/lowering_sequences.cc:2052-2084 | for a nonzero 16/32/64-bit source, `bsr` then `xor w-1` gives the leading-zero count |
| Cntlz.CntlzOfZeroAsWritten | src/alloy/backend/x64/lowering/lowering_sequences.cc:2052-2084 | for a zero 16/32/64-bit source the table gives 2w-1, while the count is w |
| Cntlz.Cntlz8AsWritten | src/alloy/backend/x64/lowering/lowering_sequences.cc:2040-2051 | the 8-bit form gives 15 for zero and 255-k for a nonzero byte whose highest set bit is k |
| Cntlz.Cntlz8Counterexample | src/alloy/backend/x64/lowering/lowering_sequences.cc:2040-2051 | for the byte 1 the table gives 255, while the count is 7 |
| Cntlz.CntlzFixedCoverage | src/alloy/backend/x64/lowering/lowering_sequences.cc:2039-2089 | the corrected CNTLZ lowers exactly the signatures the original does |
| Cntlz.CntlzFixedWide | src/alloy/backend/x64/lowering/lowering_sequences.cc:2052-2084 | the corrected 16/32/64-bit forms give the leading-zero count for every source, zero included |
| Cntlz.CntlzFixedByte | src/alloy/backend/x64/lowering/lowering_sequences.cc:2040-2051 | the corrected 8-bit form gives the leading-zero count of the byte, zero included |
| Cntlz.CntlzFixedAgrees | src/alloy/backend/x64/lowering/lowering_sequences.cc:2052-2084 | on nonzero 16/32/64-bit sources the corrected and original forms agree |

## Left out

- Machine-code encoding. Xbyak byte encoding, label resolution and `inLocalLabel` are out; emission is an abstract `seq<Op>`. The local label `.x` of CALL_TRUE/CALL_INDIRECT_TRUE is a `LocalLabel` marker.
- The register allocator and the operand helpers. `BeginOp`/`EndOp` and the bodies of `IntUnaryOp`, `IntBinaryOp`, `IntTernaryOp`, `CompareXX`, `CheckBoolean`, `XmmBinaryOp` and `MovMem64` live in `op_utils.inl`, which is not part of this model. The operand helpers become a binding convention:
  - dest holds src1 when a sequence starts;
  - the bound registers are distinct from rax, rcx, rdx, r8 and rsp;
  - the helpers' choices are `Alloc` fields (dest shares src1's register, the indirect target is already in rdx, which register holds ADD_CARRY's src3 — index 0-3, rbp, rsi, rdi or r8-r15 — and the comparison asks for inversion).
- `CheckBoolean` is modelled as `test r, r` for integer registers only. `CompareXX` is modelled as `cmp src1, src2`, with a constant src2 standing in a register. Float and vector operands of those helpers lower to an opaque `Helper` op.
- Floating point and vector arithmetic: the F32/F64/V128 paths of LOAD, STORE and MUL. Their emitted code is kept as an opaque `Helper` op or a trap.
- The V128 LOAD and V128 register STORE (lines 880-891 and 1057-1068) do their `movups` and then hit `db 0xCC`; the model runs the access and stops at the trap. The V128 constant STORE (lines 1069-1078) has no trap and is modelled as its two 64-bit stores. Nothing is proved about these paths.
- DIV (lines 1550-1596). The code never sets rdx/edx before `div`/`idiv` (lines 1556-1560, 1568-1574), so the quotient depends on whatever rdx held and no quotient property holds.
- `UNIMPLEMENTED_SEQ` is a debug break in the source, after which the entry still advances. The model treats it, and `ASSERT_INVALID_TYPE`, as an outcome that stops the lowering of the body.
- The tracers (`TraceMemoryLoad*`/`TraceMemoryStore*`), the resolvers `ResolveFunctionSymbol`/`ResolveFunctionAddress`, and the native callbacks are addresses in `Env`. The `callee` function stands in for what they do to registers; their bodies are not modelled. `LoadClock` and `Dummy` are not modelled.
- Opcodes of the table other than those listed at the top are not modelled (ASSIGN, CAST, LOAD_CONTEXT, ADD, SUB, shifts and vector forms among them).
- Control.BranchExits: BRANCH in the source reads `src1.label` without a check. The model gives a non-label operand the InvalidType outcome, which the source never produces.
- Cntlz.Cntlz8AsWritten: stated for a source register whose 16-bit view holds just the byte. The code runs `bsr` on the 16-bit register, so stale upper bits would change the result.
- Store.SelectStoreRuns: assumes rcx and rdx already hold the saved context and membase on entry, as the generated code keeps them between instructions. The callback calls reload rdx, so only then is the direct address the same before and after them.
- Store.StoreThenLoad: stated only for a store no descriptor claims, and whose bytes miss the two host slots that the reload reads ([rsp] and [context+8]). Those are the cases in which the round trip holds.
- Calls.CallNativeEffect: "memory and operand registers are kept" holds only under the callee assumption: a native callee writes no memory, in particular not [rsp] or [context+8] from which the reload reads, and changes no flag, xmm register or general register other than rax, rcx, rdx and r8. The sequence itself guarantees only that it logs no memory write. Callee bodies are not modelled.
- Memory.LoadByCallback: "guest memory is unchanged" rests on the same callee assumption; the read callback's body is not modelled.
- Memory.LoadByCallback: for I8/I16/I32 the source's `mov dest_src, rax` (line 798) pairs a narrower register with rax, a form x86 does not have; depending on the assembler it is refused or encoded as a 64-bit `mov`. The model reads it as a w-bit move of al/ax/eax and reports the LOAD as emitted. The stated result (dest at width w holds rax mod 2^w) is the same under a 64-bit encoding; if the assembler refuses the form, the LOAD of a narrow type from a claimed constant address would not be lowered at all, which the model does not represent.
- Store.StoreCallbacksRun: "guest memory, the xmm registers and the operand registers are unchanged" rests on the same callee assumption for the write callbacks. So do the memory and register claims of Store.SelectStoreRuns, Store.StoreFixedByCallback, Store.StoreThenLoad, Memory.LoadDirect and the Calls.*Runs lemmas.
- Store.DirectStoreRuns: the I64, F64 and V128 constant stores go through `MovMem64`, whose body is not part of this model. Each `MovMem64` is modelled as one 8-byte store of the full 64-bit constant. x86 has no `mov qword [m], imm64`, so the real expansion (two dword stores, or a load through a scratch register) and its effect on registers are not modelled.
- Arith.MulComputes: a constant src2 reaches mul/imul as its low 32 bits, zero-extended, because the constant forms take a `uint32_t`. So an I64 constant of 2^32 or more multiplies by its value mod 2^32 (Arith.MultiplierTruncates: 2^32 + 3 multiplies by 3). The lemma states the IR product only where the constant fits. `IntBinaryOp`, which makes this choice, is not part of this model.
- Arith.MulHiFixedComputes: the same 32-bit truncation of an I64 constant applies to MUL_HI.
- Arith.AddCarryComputes: a constant src2 reaches adc as a 32-bit immediate, which the 64-bit form sign-extends. So an I64 constant that is not a sign-extended 32-bit value adds something else (Arith.AddendSignExtends: 2^31 adds 2^64 - 2^31). The lemma states the IR sum only where the constant fits. `IntTernaryOp` is not part of this model.
- Arith.AddCarryComputes: the three ADD_CARRY lambdas (lines 1388-1412) cover register/register, constant src3 and constant src2; none takes both constants. The model composes the constant-src3 carry setup with the imm32 addend for that signature, which is what `IntTernaryOp` would need to do; its body is not part of this model.
- Arith.AddCarryComputes: rbx is a register of its own in the model, separate from the symbolic operand registers. They can be the same register only when an operand is bound to rbx; `bh` is read only when src3 is rdi, and the model does not track whether another operand is bound to rbx then.
- Cntlz: the I64 form emits `bsr dest8, src64` (line 2079), pairing an 8-bit destination with a 64-bit source, a form x86 does not have. The model reads it as `Bsr(W8, W64, …)`: the bit index goes into the low byte. The I8 result after `xor 0x3F` is the same either way.
- Descriptors: a descriptor's `handles` test is an arbitrary predicate on the address (`claims`). Its side effects, if any, are not modelled.
- Memory.LoadDirect: the tracer call's r8 is stated only modulo 2^w. The trace sequences move the loaded value through `mov r8b/r8w/r8d/r8, dest`, whose upper bits differ by width.

## Findings

| source | as written | input that shows it | evidently intended | confidence | as-written member | corrected member |
|---|---|---|---|---|---|---|
| src/alloy/backend/x64/lowering/lowering_sequences.cc:1515-1541 | 8-bit MUL_HI copies dl into dest, but the byte forms of mul/imul put the high byte in ah and leave dl alone | unsigned 0x10 * 0x10 with rdx = 0 | dest = high byte of the product (1) | not executed | Arith.MulHi8Counterexample | Arith.MulHiFixedComputes |
| src/alloy/backend/x64/lowering/lowering_sequences.cc:2052-2084 | for a zero source, `cmovz` loads w and the `xor w-1` turns it into 2w-1 | a 32-bit zero gives 63 | the leading-zero count of zero, w (32) | not executed | Cntlz.CntlzOfZeroAsWritten | Cntlz.CntlzFixedWide |
| src/alloy/backend/x64/lowering/lowering_sequences.cc:2040-2051 | the 8-bit form subtracts 8 from the bit index of a zero-extended byte before `xor 7`, giving 255-k | the byte 1 gives 255 | 7-k (7 for the byte 1) | not executed | Cntlz.Cntlz8Counterexample | Cntlz.CntlzFixedByte |
| src/alloy/backend/x64/lowering/lowering_sequences.cc:2026-2027 | `shufps d, s1, 0x1B` with d distinct from s1 takes the two upper result lanes from d | d = (0,0,0,0), s1 = (1,2,3,4) gives (0,0,2,1) | s1's lanes reversed, (4,3,2,1) | not executed | ByteSwap.VecSwapCounterexample | ByteSwap.VecSwapFixedReverses |
| src/alloy/backend/x64/lowering/lowering_sequences.cc:926 | the I32 register case of the STORE callback argument emits `movzx r8, src32`; x86 has no zero-extending move from a 32-bit register, so the form has no x86 encoding (refused, or mis-encoded, depending on the assembler) | STORE of an I32 register to a constant address a descriptor claims (0x180) | `mov r8d, src32`, which zero-extends, as ZERO_EXTEND does at line 391 | not executed | Store.Store32AsWrittenCounterexample | Store.WriteArgumentFixedLoads |
| src/alloy/backend/x64/lowering/lowering_sequences.cc:1389-1408 | ADD_CARRY loads the carry through `Reg8(src3.getIdx())`; without a REX prefix indices 5-7 name ch, dh and bh, so for src3 in rbp, rsi or rdi `mov al, src3_8` reads bits 8-15 of rcx, rdx or rbx | 32-bit ADD_CARRY, src1 = src2 = src3 = 0 with src3 in rsi and 0x100 in rdx (the memory base) gives 1 | the carry bit from src3's low byte via `src3.cvt8()` (bpl, sil, dil), giving 0 | not executed | Arith.AddCarryRsiCounterexample | Arith.AddCarryFixedComputes |
| src/alloy/backend/x64/lowering/lowering_sequences.cc:906-954 | STORE to a constant address calls every claiming descriptor's write and then also writes guest memory, where LOAD stops at the first claiming descriptor and does not touch memory | two descriptors both claiming 0x180 | one call to the first claiming descriptor and no direct write | not executed | Store.StoreAsWrittenCounterexample | Store.StoreFixedByCallback |

The corrected definitions are `Arith.SelectMulHiFixed`, `Arith.SelectAddCarryFixed`, `Cntlz.SelectCntlzFixed`,
`ByteSwap.SelectByteSwapFixed`, `Store.WriteArgumentFixed` and `Store.SelectStoreFixed`
(which uses the corrected argument load). Outside the
inputs the rows name, each coincides with the table's own selection:

- Arith.MulHiWideAsWritten;
- Arith.AddCarryFixedAgrees;
- Cntlz.CntlzFixedAgrees;
- ByteSwap.ByteSwapFixedElsewhere;
- Store.StoreCallbackFixedAgrees;
- Store.StoreFixedAgrees.

So the remaining lemmas about those opcodes hold for both.
