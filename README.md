# SwiftVM runtime core in Dafny

This project models the core of the SwiftVM binary translator's runtime and proves properties of the model. SwiftVM translates guest x86-64 and A64 code into an IR, optimises the IR with a small set of passes, allocates registers, and emits host code through a RISC-V assembler or the arm64 backend. The model covers:

- **Base utilities**: alignment and power-of-two helpers, the enum-flag operators and rounding helpers of `common_funcs.h`, and bit-field packing. They are functions over unbounded integers, and the source's 64-bit wrap-around is written out where it matters.
- **RISC-V assembler utilities**: the instruction encoders, branch labels with their link chains, the little-endian memory region, the growable assembler buffer with its fixups and slow-path queue, and the scratch-register pool.
- **Runtime tables and allocators**: the open-addressing translate table (guest address to host code), the bucketed address hash map with its range query, the backend module's node reference counts, JIT-state words and code caches, the memory arena, and the slab allocators.
- **IR core**: argument and operand values, the instruction arena with its use lists, blocks and their instruction lists, the HIR builder (blocks, edges, predecessor and successor links, and renumbering in reverse post-order), and the register-allocation result table.
- **IR passes**: CFG analysis (dominating edges, back edges, reverse post-order and dominators), local load/store elimination, uniform-load elimination, dead-code elimination, live intervals, and the linear-scan register allocator.
- **Frontend logic**: x86 decoder register mapping and operand conversion, and the A64 move-wide immediates (MOVZ, MOVN, MOVK).
- **arm64 trampolines**: the save/restore plans for the callee-saved registers and the stack balance of the generated stubs.
- **Linux ELF loader**: header checks, page rounding, segment mapping and bss zero-fill. The host's mmap, pread and mprotect calls are modelled as a list of operations.

Code that mutates objects in place is modelled as Dafny classes with `modifies` frames: tables, buffers, allocators, the HIR function and its builder, and blocks. Pure computations are modelled as functions with lemmas. Loops that update state, and the loops of the argument walks (PublicIndex, Validate, parameter lists), become methods with invariants, proved against a specification function; a loop that only folds a value inside a pure computation is described by the function it computes. Where verification showed the source to be wrong, the Findings table records it. Each such row names a member that models the code as written, together with a lemma exhibiting the discrepancy, and the corrected member that the rest of the model uses.

## Model

| member | source | states |
|---|---|---|
| Alignment.AlignDown | source/runtime/common/alignment.h:14-16 | `value - value % size` is a multiple of size with r <= v < r + size |
| Alignment.AlignUpIsLeastMultiple | source/runtime/common/alignment.h:8-12 | when v + size fits the word, AlignUp is a multiple of size with v <= r < v + size |
| Alignment.AlignedIsFixed | source/runtime/common/alignment.h:8-16 | an already aligned value is returned unchanged by both helpers |
| Alignment.AlignIdempotent | source/runtime/common/alignment.h:8-16 | AlignDown and (without wrap) AlignUp are idempotent |
| Alignment.NonPowerOfTwoSize | source/runtime/common/alignment.h:8-16 | the helpers work for sizes that are not powers of two: AlignUp(50, 24) = 72, AlignDown(50, 24) = 48 |
| UtilsCommon.GetAlignment | source/runtime/externals/utils/common.hpp:68-71 | `value & -value` is 0 for 0, otherwise the power of two 2^tz dividing v with an odd quotient (the lowest set bit) |
| UtilsCommon.InvMaskOfPow2 | source/runtime/externals/utils/common.hpp:50 | for a power-of-two alignment 2^k the truncated `alignment - 1` is the mask of the k low bits |
| UtilsCommon.AlignDownSpec | source/runtime/externals/utils/common.hpp:54-59 | for a power-of-two alignment, `v & ~invmask` is the greatest multiple of the alignment <= v |
| UtilsCommon.AlignUpSpec | source/runtime/externals/utils/common.hpp:47-52 | for a power-of-two alignment and no overflow, `(v + invmask) & ~invmask` is the least multiple >= v |
| UtilsCommon.AlignUpIsAlignDown | source/runtime/externals/utils/common.hpp:47-59 | AlignUp(v) is AlignDown(v + invmask) when the sum does not wrap |
| UtilsCommon.IsAlignedSpec | source/runtime/externals/utils/common.hpp:61-66 | IsAligned holds iff v is a multiple of the alignment, iff AlignDown leaves v unchanged |
| UtilsCommon.LowestSetBit | source/runtime/externals/utils/common.hpp:68-71 | for 0 < v, `v & -v` (w-bit negation) is 2^(trailing zeros of v) |
| UtilsCommon.AlignUpPtr | source/runtime/externals/utils/common.hpp:73-81 | the pointer specialisation aligns the address as the uintptr_t version: least multiple >= p |
| UtilsCommon.AlignDownPtr | source/runtime/externals/utils/common.hpp:83-91 | the pointer specialisation gives the greatest aligned address <= p |
| UtilsCommon.IsAlignedPtrSpec | source/runtime/externals/utils/common.hpp:93-101 | the pointer IsAligned holds iff the address is a multiple of the alignment |
| CommonFuncs.EnumOr | source/base/common_funcs.h:26-29 | `a \| b` on the underlying type: bit i of the result is set iff it is set in a or in b, and the result stays within the w bits |
| CommonFuncs.EnumAnd | source/base/common_funcs.h:30-33 | `a & b`: bit i is set iff it is set in both operands |
| CommonFuncs.EnumXor | source/base/common_funcs.h:34-37 | `a ^ b`: bit i is set iff exactly one operand has it |
| CommonFuncs.EnumShl | source/base/common_funcs.h:38-41 | `a << b` truncated to w bits: bit i is bit i-b of a for b <= i < w, clear otherwise |
| CommonFuncs.EnumShr | source/base/common_funcs.h:42-45 | `a >> b`: bit i is bit i+b of a |
| CommonFuncs.EnumNot | source/base/common_funcs.h:66-69 | `~key` flips every one of the w bits |
| CommonFuncs.TrueIffSomeFlag | source/base/common_funcs.h:70-77 | True(k) holds iff some flag bit is set; False(k) is exactly its negation |
| CommonFuncs.FlagVar.CompoundAssign | source/base/common_funcs.h:46-65 | each `a op= b` stores `a op b` in a and returns the new a |
| CommonFuncs.EndWithIffConcat | source/base/common_funcs.h:79-82 | EndWith(str, suffix) holds iff str is some prefix followed by suffix |
| CommonFuncs.Find | source/base/common_funcs.h:89 | `std::find` from start: the first index >= start holding the value, or the size when there is none |
| CommonFuncs.ContainsElement | source/base/common_funcs.h:84-91 | under start_pos < size, true iff the value occurs at some index >= start_pos |
| CommonFuncs.RoundDown | source/base/common_funcs.h:100-103 | `x & -n` never exceeds x |
| CommonFuncs.RoundDownPow2 | source/base/common_funcs.h:100-103 | for n = 2^k, RoundDown(x, n) = x - x mod n, a multiple of n |
| CommonFuncs.RoundUpPow2 | source/base/common_funcs.h:105-108 | for n = 2^k and no overflow, RoundUp(x, n) is the least multiple of n >= x |
| CommonFuncs.RoundDownNonPow2 | source/base/common_funcs.h:100-103 | without a power-of-two check, a byte RoundDown(7, 3) is 5, not a multiple of 3 |
| BitFields.FieldMask | source/runtime/common/bit_fields.h:25 | for a storage type at least 32 bits wide, so that no integer promotion applies, the mask has exactly the bits [position, position + bits) set that lie inside the word |
| BitFields.ReadBits | source/runtime/common/bit_fields.h:18 | bit j of a read is bit position + j of the storage inside the field, clear beyond it |
| BitFields.ReadBound | source/runtime/common/bit_fields.h:18 | a read is always below 2^bits |
| BitFields.WrittenBits | source/runtime/common/bit_fields.h:13-16 | after `field = val` bit i of the storage is the value's bit inside the mask and the old bit outside |
| BitFields.ReadAfterWrite | source/runtime/common/bit_fields.h:13-18 | reading after writing val gives val modulo 2^(field width) |
| BitFields.WriteKeepsOutside | source/runtime/common/bit_fields.h:13-16 | a write changes no storage bit outside the mask |
| BitFields.WriteIdempotent | source/runtime/common/bit_fields.h:13-16 | writing the same value twice equals writing it once |
| BitFields.BitField.constructor | source/runtime/common/bit_fields.h:11-28 | an unsigned T with bits > 0; the indeterminate initial storage is a parameter |
| BitFields.BitField.Assign | source/runtime/common/bit_fields.h:13-16 | the storage becomes the masked write, and reading it back gives val mod 2^(field width) |
| BitFields.BitField.Get | source/runtime/common/bit_fields.h:18 | the result is below 2^bits and its bit j is storage bit position + j inside the field |
| RiscvUtils.MaxInt | source/runtime/externals/riscv-asm/riscv64/assembler_riscv64.h:178-188 | the largest n-bit value: 2^(n-1) - 1 signed, 2^n - 1 unsigned |
| RiscvUtils.MinInt | source/runtime/externals/riscv-asm/riscv64/assembler_riscv64.h:190-199 | the smallest n-bit value: -2^(n-1) signed, 0 unsigned |
| RiscvUtils.IsInt | source/runtime/externals/riscv-asm/riscv64/assembler_riscv64.h:166-175 | IsInt<k>(v) holds exactly when MinInt(k) <= v <= MaxInt(k), including the all-bits case |
| RiscvUtils.IsUint | source/runtime/externals/riscv-asm/riscv64/assembler_riscv64.h:214-226 | IsUint<k>(v) holds exactly when 0 <= v <= 2^k - 1, including the all-bits case |
| RiscvUtils.IsIntWiden | source/runtime/externals/riscv-asm/riscv64/assembler_riscv64.h:166-175 | a value that fits k signed bits fits k + 1 |
| RiscvUtils.PowerOfTwoSpec | source/runtime/externals/riscv-asm/riscv64/assembler_riscv64.h:252-257 | `(x & (x - 1)) == 0` holds exactly for 0 and the powers of two |
| RiscvUtils.RoundDown | source/runtime/externals/riscv-asm/riscv64/assembler_riscv64.h:264-268 | under the power-of-two check, `x & -n` is the greatest multiple of n that is <= x (0 for n = 0) |
| RiscvUtils.RoundUp | source/runtime/externals/riscv-asm/riscv64/assembler_riscv64.h:273-276 | RoundDown(x + n - 1, n) is the least multiple of n >= x when the sum does not wrap |
| RiscvEncoding.EncodeI | source/runtime/externals/riscv-asm/riscv64/assembler_riscv64.h:1729-1738 | under the DCHECK ranges (12-bit signed immediate, 5-bit registers, 3-bit funct3, 7-bit opcode) the I-type word decodes back to exactly the immediate, rs1, funct3, rd and opcode it was built from |
| RiscvEncoding.EncodeR | source/runtime/externals/riscv-asm/riscv64/assembler_riscv64.h:1748-1759 | the R-type word decodes back to exactly funct7, rs2, rs1, funct3, rd and opcode |
| RiscvEncoding.EncodeR4 | source/runtime/externals/riscv-asm/riscv64/assembler_riscv64.h:1768-1782 | the R4-type word decodes back to exactly rs3, fmt, rs2, rs1, funct3, rd and opcode |
| RiscvEncoding.EncodeS | source/runtime/externals/riscv-asm/riscv64/assembler_riscv64.h:1792-1803 | the S-type word, whose immediate is split over bits 31:25 and 11:7, decodes back to exactly the sign-extended immediate and the other fields |
| RiscvEncoding.EncodeI6 | source/runtime/externals/riscv-asm/riscv64/assembler_riscv64.h:1812-1828 | the shift-immediate word decodes back to exactly funct6, the 6-bit amount, rs1, funct3, rd and opcode |
| RiscvEncoding.EncodeB | source/runtime/externals/riscv-asm/riscv64/assembler_riscv64.h:1837-1850 | for an even offset within 13 signed bits, the branch word decodes back to exactly the offset (reassembled from its four scattered pieces), rs2, rs1, funct3 and opcode |
| RiscvEncoding.BranchOffsetBits | source/runtime/externals/riscv-asm/riscv64/assembler_riscv64.h:1845-1848 | the scattered offset pieces occupy no bit of the register, funct3 or opcode fields and reassemble to the offset |
| RiscvEncoding.BranchFieldsApart | source/runtime/externals/riscv-asm/riscv64/assembler_riscv64.h:1846-1848 | ORing the register, funct3 and opcode fields into the offset bits leaves every field readable unchanged |
| RiscvEncoding.EncodeU | source/runtime/externals/riscv-asm/riscv64/assembler_riscv64.h:1859-1865 | the U-type word decodes back to exactly the 20-bit upper immediate, rd and opcode |
| RiscvEncoding.EncodeJ | source/runtime/externals/riscv-asm/riscv64/assembler_riscv64.h:1874-1884 | for an even offset within 21 signed bits, the jump word decodes back to exactly the offset, rd and opcode |
| RiscvLabel.BindCheckHolds | source/runtime/externals/riscv-asm/riscv64/assembler_riscv64.h:627-631 | the closing CHECK(IsBound()) of BindTo holds exactly for positions -7 .. 2^31 - 8; every other 32-bit position wraps to a non-negative word |
| RiscvLabel.LinkCheckHolds | source/runtime/externals/riscv-asm/riscv64/assembler_riscv64.h:633-637 | the closing CHECK(IsLinked()) of LinkTo holds exactly for positions -7 .. 2^31 - 9 |
| RiscvLabel.BoundRoundTrip | source/runtime/externals/riscv-asm/riscv64/assembler_riscv64.h:608-631 | the word BindTo stores decodes, through Position()'s arithmetic, as a bound label at exactly the position it was bound to |
| RiscvLabel.LinkedRoundTrip | source/runtime/externals/riscv-asm/riscv64/assembler_riscv64.h:608-637 | the word LinkTo stores decodes as a linked label at exactly the position it was linked to |
| RiscvLabel.Label.constructor | source/runtime/externals/riscv-asm/riscv64/assembler_riscv64.h:593 | a new label is unused |
| RiscvLabel.Label.Move | source/runtime/externals/riscv-asm/riscv64/assembler_riscv64.h:595-599 | the moved-to label takes the source's word and state, and the source becomes unused |
| RiscvLabel.Label.Position | source/runtime/externals/riscv-asm/riscv64/assembler_riscv64.h:608-611 | for a bound or linked label, the result is the position of the state the word encodes |
| RiscvLabel.Label.LinkPosition | source/runtime/externals/riscv-asm/riscv64/assembler_riscv64.h:613-616 | for a linked label, the result is its link position |
| RiscvLabel.Label.Reinitialize | source/runtime/externals/riscv-asm/riscv64/assembler_riscv64.h:625 | the label becomes unused |
| RiscvLabel.Label.BindTo | source/runtime/externals/riscv-asm/riscv64/assembler_riscv64.h:627-631 | on a label that is not bound, and a position that passes the closing CHECK, the label becomes bound and Position() returns exactly that position |
| RiscvLabel.Label.LinkTo | source/runtime/externals/riscv-asm/riscv64/assembler_riscv64.h:633-637 | on a label that is not bound, and a position that passes the closing CHECK, the label becomes linked and both Position() and LinkPosition() return exactly that position |
| RiscvMemory.DecodeEncode | source/runtime/externals/riscv-asm/riscv64/assembler_riscv64.h:511-535 | reading back the little-endian bytes that StoreUnaligned writes for a value that fits n bytes gives that value |
| RiscvMemory.EncodeDecode | source/runtime/externals/riscv-asm/riscv64/assembler_riscv64.h:511-535 | writing the value LoadUnaligned reads from n bytes gives those same bytes back |
| RiscvMemory.EncodeAt | source/runtime/externals/riscv-asm/riscv64/assembler_riscv64.h:531-534 | byte i of the little-endian encoding is (value >> 8i) & 0xFF |
| RiscvMemory.DecodeAppend | source/runtime/externals/riscv-asm/riscv64/assembler_riscv64.h:516-519 | adding one more byte to the loaded sum adds it at weight 2^(8i) |
| RiscvMemory.StoredAt | source/runtime/externals/riscv-asm/riscv64/assembler_riscv64.h:525-535 | a store changes exactly the n bytes from the offset on and no other byte |
| RiscvMemory.LoadAfterStore | source/runtime/externals/riscv-asm/riscv64/assembler_riscv64.h:510-535 | the n bytes just stored decode to the stored value |
| RiscvMemory.StoreLoaded | source/runtime/externals/riscv-asm/riscv64/assembler_riscv64.h:510-535 | storing the value already held at an offset changes no byte |
| RiscvMemory.MemoryRegion.constructor | source/runtime/externals/riscv-asm/riscv64/assembler_riscv64.h:511-535 | the region views the given bytes |
| RiscvMemory.MemoryRegion.LoadUnaligned | source/runtime/externals/riscv-asm/riscv64/assembler_riscv64.h:510-521 | for 1-, 2- and 4-byte types inside the region, the result is the little-endian value of the n bytes at the offset, below 2^(8n) |
| RiscvMemory.MemoryRegion.StoreUnaligned | source/runtime/externals/riscv-asm/riscv64/assembler_riscv64.h:525-535 | for 1-, 2-, 4- and 8-byte types inside the region, the region afterwards is the old region with the value's little-endian bytes written over the n bytes at the offset |
| RiscvMemory.StoreThenLoad | source/runtime/externals/riscv-asm/riscv64/assembler_riscv64.h:510-535 | a store followed by a load of the same width at the same offset returns the stored value |
| RiscvBuffer.AssemblerFixup.constructor | source/runtime/externals/riscv-asm/riscv64/assembler_riscv64.h:648-664 | a fresh fixup is linked to no previous fixup |
| RiscvBuffer.SlowPath.constructor | source/runtime/externals/riscv-asm/riscv64/assembler_riscv64.h:669 | a fresh slow path has no successor in the queue |
| RiscvBuffer.LoadGuardAgrees | source/runtime/externals/riscv-asm/riscv64/assembler_riscv64.h:706-714 | whenever Size() >= sizeof(T), the guard as written admits exactly the positions whose sizeof(T) bytes lie inside the emitted code |
| RiscvBuffer.LoadGuardAdmitsEmptyRead | source/runtime/externals/riscv-asm/riscv64/assembler_riscv64.h:706-709 | on an empty buffer the guard as written admits Load<uint32_t>(0), which reads four bytes that were never emitted |
| RiscvBuffer.Moved | source/runtime/externals/riscv-asm/riscv64/assembler_riscv64.h:723-728 | memmove leaves every byte outside the destination range unchanged and copies the source range, byte by byte, into the destination |
| RiscvBuffer.AssemblerBuffer.constructor | source/runtime/externals/riscv-asm/riscv64/assembler_riscv64.h:692 | a new buffer is empty, has no fixup and an empty slow-path queue, and its limit sits kMinimumGap bytes before the end of the area |
| RiscvBuffer.AssemblerBuffer.ExtendCapacity | source/runtime/externals/riscv-asm/riscv64/assembler_riscv64.h:846 | the capacity grows to at least the requested size and every byte already emitted is kept |
| RiscvBuffer.AssemblerBuffer.BeginEnsureCapacity | source/runtime/externals/riscv-asm/riscv64/assembler_riscv64.h:781-797 | the scope extends the area when the cursor is past the limit, so the recorded gap is at least kMinimumGap, and marks the buffer ready for emitting; the emitted bytes are kept |
| RiscvBuffer.AssemblerBuffer.EndEnsureCapacity | source/runtime/externals/riscv-asm/riscv64/assembler_riscv64.h:799-806 | when the instruction took no more than kMinimumGap bytes the scope closes and unmarks the buffer, changing nothing else |
| RiscvBuffer.AssemblerBuffer.Emit | source/runtime/externals/riscv-asm/riscv64/assembler_riscv64.h:700-704 | the value's bytes are written little-endian at the cursor and the size grows by sizeof(T) |
| RiscvBuffer.AssemblerBuffer.Load | source/runtime/externals/riscv-asm/riscv64/assembler_riscv64.h:706-709 | inside the emitted code, the result is the little-endian value of the sizeof(T) bytes at the position, and storing it back would change nothing |
| RiscvBuffer.AssemblerBuffer.Store | source/runtime/externals/riscv-asm/riscv64/assembler_riscv64.h:711-714 | the buffer afterwards holds the value's little-endian bytes at the position and is otherwise unchanged |
| RiscvBuffer.AssemblerBuffer.Resize | source/runtime/externals/riscv-asm/riscv64/assembler_riscv64.h:716-721 | the size becomes the new size, and the area is extended (keeping its bytes) exactly when the new size exceeds the capacity |
| RiscvBuffer.AssemblerBuffer.Move | source/runtime/externals/riscv-asm/riscv64/assembler_riscv64.h:723-728 | the buffer afterwards is the memmove of the chunk; size and queue are unchanged |
| RiscvBuffer.AssemblerBuffer.EmitFixup | source/runtime/externals/riscv-asm/riscv64/assembler_riscv64.h:731-735 | the fixup becomes the head of the fixup list, points at the previous head and is stamped with the current size |
| RiscvBuffer.AssemblerBuffer.EnqueueSlowPath | source/runtime/externals/riscv-asm/riscv64/assembler_riscv64.h:737-745 | the slow path is appended at the tail of the queue, which stays a null-terminated chain of distinct nodes |
| RiscvBuffer.AssemblerBuffer.EmitSlowPaths | source/runtime/externals/riscv-asm/riscv64/assembler_riscv64.h:747-756 | every queued slow path is visited exactly once, in queue order, and the queue is left empty |
| RiscvBuffer.EnqueueOrder | source/runtime/externals/riscv-asm/riscv64/assembler_riscv64.h:737-756 | enqueueing a then b on an empty queue emits them in the order a, b |
| RiscvBuffer.AssemblerBuffer.LoadAsWritten | source/runtime/externals/riscv-asm/riscv64/assembler_riscv64.h:706-709 | under the guard as written the read succeeds exactly when it stays inside the data area, then returns those bytes little-endian; every position the intended guard admits succeeds |
| RiscvBuffer.AssemblerBuffer.StoreAsWritten | source/runtime/externals/riscv-asm/riscv64/assembler_riscv64.h:711-714 | under the guard as written the write succeeds exactly when it stays inside the data area, writing the value's bytes there and nothing else |
| RiscvBuffer.AssemblerBuffer.LoadAsWrittenReadsUnemitted | source/runtime/externals/riscv-asm/riscv64/assembler_riscv64.h:706-709 | on an empty buffer the guard as written admits Load<uint32_t>(0), the intended guard refuses it, and the read returns four bytes never emitted |
| RiscvScratch.Allocate | source/runtime/externals/riscv-asm/riscv64/assembler_riscv64.h:1932-1940 | on a non-empty mask the register taken is the highest set bit, and the new mask is the old one with exactly that bit cleared |
| RiscvScratch.Free | source/runtime/externals/riscv-asm/riscv64/assembler_riscv64.h:1944-1949 | on a register whose bit is clear, the new mask is the old one with exactly that bit set |
| RiscvScratch.Include | source/runtime/externals/riscv-asm/riscv64/assembler_riscv64.h:1955-1959 | the new mask is the old one with the register's bit set, whether or not it was |
| RiscvScratch.Exclude | source/runtime/externals/riscv-asm/riscv64/assembler_riscv64.h:1962-1966 | the new mask is the old one with the register's bit cleared, whether or not it was |
| RiscvScratch.FreeUndoesAllocate | source/runtime/externals/riscv-asm/riscv64/assembler_riscv64.h:1932-1949 | freeing the register just allocated restores the mask |
| RiscvScratch.AllocateCount | source/runtime/externals/riscv-asm/riscv64/assembler_riscv64.h:1932-1952 | an allocation lowers AvailableXRegisters() by exactly one |
| RiscvScratch.FreeCount | source/runtime/externals/riscv-asm/riscv64/assembler_riscv64.h:1944-1952 | freeing raises AvailableXRegisters() by exactly one |
| RiscvScratch.InitialMasks | source/runtime/externals/riscv-asm/riscv64/assembler_riscv64.h:1027-1028 | the initial core scratch mask holds exactly TMP (T6) and TMP2 (T5) |
| RiscvScratch.Tmp2Mask | source/runtime/externals/riscv-asm/riscv64/assembler_riscv64.h:1027 | the mask 1u << TMP2 holds exactly T5 |
| RiscvScratch.InitialAllocations | source/runtime/externals/riscv-asm/riscv64/assembler_riscv64.h:1932-1940 | from the initial core mask the registers handed out are TMP, then TMP2, and then none is left |
| RiscvScratch.Riscv64Assembler.constructor | source/runtime/externals/riscv-asm/riscv64/assembler_riscv64.h:1015-1029 | a new assembler starts with the core scratch mask {TMP, TMP2} and the FP scratch mask {FTMP} |
| RiscvScratch.ScratchRegisterScope.constructor | source/runtime/externals/riscv-asm/riscv64/assembler_riscv64.h:1921-1924 | the scope saves both masks when it opens |
| RiscvScratch.ScratchRegisterScope.Close | source/runtime/externals/riscv-asm/riscv64/assembler_riscv64.h:1926-1929 | closing the scope restores both masks to their saved values |
| RiscvScratch.ScratchRegisterScope.AllocateXRegister | source/runtime/externals/riscv-asm/riscv64/assembler_riscv64.h:1932-1940 | the register returned and the new core mask are those of Allocate on the old mask; the FP mask is unchanged |
| RiscvScratch.ScratchRegisterScope.FreeXRegister | source/runtime/externals/riscv-asm/riscv64/assembler_riscv64.h:1944-1949 | the new core mask is Free of the old one; the FP mask is unchanged |
| RiscvScratch.ScratchRegisterScope.IncludeXRegister | source/runtime/externals/riscv-asm/riscv64/assembler_riscv64.h:1955-1959 | the new core mask is Include of the old one; the FP mask is unchanged |
| RiscvScratch.ScratchRegisterScope.ExcludeXRegister | source/runtime/externals/riscv-asm/riscv64/assembler_riscv64.h:1962-1966 | the new core mask is Exclude of the old one; the FP mask is unchanged |
| RiscvScratch.ScratchRegisterScope.AllocateFRegister | source/runtime/externals/riscv-asm/riscv64/assembler_riscv64.h:1969-1977 | the register returned and the new FP mask are those of Allocate on the old mask; the core mask is unchanged |
| RiscvScratch.ScratchRegisterScope.FreeFRegister | source/runtime/externals/riscv-asm/riscv64/assembler_riscv64.h:1981-1986 | the new FP mask is Free of the old one; the core mask is unchanged |
| RiscvScratch.ScratchRegisterScope.IncludeFRegister | source/runtime/externals/riscv-asm/riscv64/assembler_riscv64.h:1992-1996 | the new FP mask is Include of the old one; the core mask is unchanged |
| RiscvScratch.ScratchRegisterScope.ExcludeFRegister | source/runtime/externals/riscv-asm/riscv64/assembler_riscv64.h:1999-2003 | the new FP mask is Exclude of the old one; the core mask is unchanged |
| RiscvScratch.FirstScratchIsTmp | source/runtime/externals/riscv-asm/riscv64/assembler_riscv64.h:1015-1940 | the first scratch core register a fresh assembler hands out is TMP (T6) |
| TranslateTable.Hash | source/runtime/backend/translate_table.h:29-32 | the home slot of a key is below 2^hash_bits, the table size |
| TranslateTable.ProbeFree | source/runtime/backend/translate_table.h:39-51 | the slot Put and GetOrPut write is the first slot from the home slot on whose key is 0 or the key, and no probe gets past slot size - 2 (it aborts instead) |
| TranslateTable.FindKey | source/runtime/backend/translate_table.h:89-97 | a slot Lookup finds holds exactly the key and lies at or after the home slot |
| TranslateTable.ResetEntries | source/runtime/backend/translate_table.h:144-147 | after Reset the table has size + 10 entries, the last key is all ones and every other entry is kept or zero |
| TranslateTable.FindAfterProbe | source/runtime/backend/translate_table.h:34-97 | after Put writes a slot, Lookup of the same key finds exactly that slot |
| TranslateTable.PutThenLookup | source/runtime/backend/translate_table.h:34-97 | after a Put that does not abort, Lookup of the key returns the value put |
| TranslateTable.PutFindsExisting | source/runtime/backend/translate_table.h:34-97 | for a nonzero key already in the table, Put writes the slot Lookup finds, so a key is overwritten and never duplicated |
| TranslateTable.PutChangesOneSlot | source/runtime/backend/translate_table.h:34-55 | Put changes exactly one slot, which then holds the key and value |
| TranslateTable.GetOrPutSlot | source/runtime/backend/translate_table.h:57-80 | GetOrPut returns 2 * slot + 1 for the slot holding the key, changes no other slot, leaves the table unchanged when the key already has a nonzero value, and Lookup then returns that slot's value |
| TranslateTable.ReplaceThenLookup | source/runtime/backend/translate_table.h:101-122 | after Replace, Lookup of the key returns the new value |
| TranslateTable.FindUnchangedKeys | source/runtime/backend/translate_table.h:101-118 | overwriting a value changes no Lookup, since the search reads only keys |
| TranslateTable.ClearForgets | source/runtime/backend/translate_table.h:142 | after Clear, Lookup finds no nonzero key |
| TranslateTable.NextIndex | source/runtime/backend/translate_table.h:137 | the corrected probe step stays inside the table, wrapping from the last slot to slot 0 |
| TranslateTable.ExampleHashes | source/runtime/backend/translate_table.h:29-32 | with hash_bits 2, keys 8 and 9 hash to slot 2 and key 1 to slot 0 |
| TranslateTable.ExampleSteps | source/runtime/backend/translate_table.h:137 | with size 4, the step as written sends slots 0 and 2 to slot 0 |
| TranslateTable.RemoveAsWrittenLoops | source/runtime/backend/translate_table.h:124-140 | Remove(8) on a four-slot table holding 1 in slot 0 and 9 in slot 2 keeps probing, as written, between slots 2 and 0 and never meets its end index |
| TranslateTable.FindForRemove | source/runtime/backend/translate_table.h:124-140 | the corrected Remove finds only a slot holding the key |
| TranslateTable.RemoveEntries | source/runtime/backend/translate_table.h:124-140 | the corrected Remove keeps the table length |
| TranslateTable.RemoveHomeSlot | source/runtime/backend/translate_table.h:124-140 | when the key sits in its home slot, the corrected Remove zeroes exactly that slot's key, as the code as written does |
| TranslateTable.RemoveKeepsValues | source/runtime/backend/translate_table.h:133-135 | Remove keeps every value and changes a key only by zeroing a slot that held the key |
| TranslateTable.RemoveThenLookup | source/runtime/backend/translate_table.h:82-140 | after removing a nonzero key found in its home slot, Lookup of the key returns 0 |
| TranslateTable.TranslateTable.constructor | source/runtime/backend/translate_table.h:22-25 | a new table has size 2^hash_bits and the entries Reset makes |
| TranslateTable.TranslateTable.HashOf | source/runtime/backend/translate_table.h:29-32 | the home slot of a key is a slot of the table |
| TranslateTable.TranslateTable.Put | source/runtime/backend/translate_table.h:34-55 | the probe loop writes the entries PutEntries specifies and returns true, or aborts with the table unchanged; the exclusive lock is taken once and released |
| TranslateTable.TranslateTable.GetOrPut | source/runtime/backend/translate_table.h:57-80 | the probe loop returns the slot number and writes the entries GetOrPutEntries specifies, or aborts with the table unchanged; the exclusive lock is taken once and released |
| TranslateTable.TranslateTable.Lookup | source/runtime/backend/translate_table.h:82-99 | the search loop returns the value of the slot FindKey finds, or 0 |
| TranslateTable.TranslateTable.Replace | source/runtime/backend/translate_table.h:101-122 | as written: the value of the slot Lookup would find is overwritten, otherwise the key is put as Put does; the lock trace is its own acquisition, plus Put's acquisition while it is held when the key is absent |
| TranslateTable.TranslateTable.Remove | source/runtime/backend/translate_table.h:124-140 | with the wrapping step, the table afterwards is RemoveEntries of the old one, and the exclusive lock is taken once and released |
| TranslateTable.TranslateTable.Clear | source/runtime/backend/translate_table.h:142 | every entry becomes (0, 0) and the length is kept |
| TranslateTable.TranslateTable.Reset | source/runtime/backend/translate_table.h:144-147 | the entries become those ResetEntries specifies |
| TranslateTable.ReplaceRelocksWhenAbsent | source/runtime/backend/translate_table.h:101-122 | from the trace of acquisitions Replace records: called without the lock, it never acquires a lock it holds exactly when the key is found; on an absent key Put relocks |
| TranslateTable.ReplaceLocksOnce | source/runtime/backend/translate_table.h:101-122 | the trace of the corrected Replace never acquires a lock it holds whenever it is called without the lock |
| TranslateTable.TranslateTable.PutLocked | source/runtime/backend/translate_table.h:34-55 | Put's probe and write under a lock already held: the entries PutEntries specifies, or the table unchanged on abort; no lock is taken |
| TranslateTable.TranslateTable.ReplaceHeld | source/runtime/backend/translate_table.h:101-122 | the corrected Replace leaves the entries ReplaceEntries specifies, and its lock trace is a single acquisition |
| TranslateTable.TranslateTable.Search | source/runtime/backend/translate_table.h:105-113 | the search loop reports a slot exactly when FindKey finds one, and that slot |
| AddressMap.Find | source/runtime/common/address_hash_map.h:43 | find(T{addr}) answers only with a node of the tree at that address |
| AddressMap.Insert | source/runtime/common/address_hash_map.h:86 | insert places the node in address order and keeps the node already at a taken address |
| AddressMap.Erase | source/runtime/common/address_hash_map.h:96-97 | erase drops the node at that address, if any, and keeps the tree in order |
| AddressMap.FindSorted | source/runtime/common/address_hash_map.h:39-48 | in a sorted tree, find answers with the node at the address whenever there is one |
| AddressMap.InsertFind | source/runtime/common/address_hash_map.h:74-88 | after insert, find at the node's address gives the inserted node unless one was already there, and every other address is unchanged |
| AddressMap.EraseFind | source/runtime/common/address_hash_map.h:90-101 | after erase, find at the erased address gives nothing and every other address is unchanged |
| AddressMap.LowerBound | source/runtime/common/address_hash_map.h:58 | lower_bound(T{a}) is the index of the first node whose address is at least a |
| AddressMap.UpperBound | source/runtime/common/address_hash_map.h:62 | upper_bound(T{a}) is the index of the first node whose address is above a |
| AddressMap.WindowHoldsRange | source/runtime/common/address_hash_map.h:58-63 | the nodes GetRange walks in one bucket include every node whose address lies in [start, end] |
| AddressMap.WindowBounds | source/runtime/common/address_hash_map.h:58-63 | every node walked is a node of the bucket's tree at or below end |
| AddressMap.WindowAscending | source/runtime/common/address_hash_map.h:58-63 | the nodes walked in one bucket come in ascending address order |
| AddressMap.Overlapping | source/runtime/common/address_hash_map.h:63-67 | the inner loop keeps exactly the walked nodes that overlap [start, end], in order |
| AddressMap.ScanSound | source/runtime/common/address_hash_map.h:56-69 | every node the bucket loop collects overlaps the range and comes from a scanned bucket |
| AddressMap.ScanComplete | source/runtime/common/address_hash_map.h:56-69 | every overlapping node of a scanned bucket whose address lies in [start, end] is collected |
| AddressMap.ScanFromAsWritten | source/runtime/common/address_hash_map.h:53 | as written, the lower address is max(start - 64 KB, addr_start) with the subtraction wrapping at 2^64; it is never below addr_start |
| AddressMap.ScanFrom | source/runtime/common/address_hash_map.h:53 | the intended lower address is never below addr_start, is at most start unless it is addr_start, and is exactly start - 64 KB when start lies 64 KB or more above addr_start |
| AddressMap.BucketMono | source/runtime/common/address_hash_map.h:35-37 | Hash is monotone: a lower address never maps to a later bucket |
| AddressMap.BucketRange | source/runtime/common/address_hash_map.h:35-37 | bucket k covers exactly the addresses addr_start + [k * hash_item_size, (k + 1) * hash_item_size) |
| AddressMap.BucketStep | source/runtime/common/address_hash_map.h:35-37 | an address one whole bucket further up lies in a later bucket |
| AddressMap.GetRangeAsWrittenSkipsLowStarts | source/runtime/common/address_hash_map.h:50-56 | as written, with start below 64 KB the first bucket GetRange scans lies past the bucket of end, so the loop scans nothing |
| AddressMap.ScanFromCoversRange | source/runtime/common/address_hash_map.h:53-54 | the intended first bucket is never past the bucket of any address in [start, end] |
| AddressMap.TableAfterStore | source/runtime/common/address_hash_map.h:74-88 | storing a node into its bucket adds it to the map's contents unless its address is taken |
| AddressMap.TableAfterErase | source/runtime/common/address_hash_map.h:90-101 | erasing an address from its bucket removes exactly that address from the contents |
| AddressMap.BucketNodes | source/runtime/common/address_hash_map.h:57-68 | the body of the bucket loop appends the overlapping nodes of the bucket's window |
| AddressMap.OverlappingIn | source/runtime/common/address_hash_map.h:63-67 | the inner loop returns the overlapping nodes of the window, in order |
| AddressMap.ScanBuckets | source/runtime/common/address_hash_map.h:56-69 | the bucket loop returns the scan of the buckets from start_hash to end_hash |
| AddressMap.AddressHashMap.constructor | source/runtime/common/address_hash_map.h:19-33 | the table has (end - start) / hash_item_size + 1 empty buckets, held in a std::vector exactly when the range is at most 512 buckets wide |
| AddressMap.AddressHashMap.Hash | source/runtime/common/address_hash_map.h:35-37 | every address of the range hashes to a bucket of the table |
| AddressMap.AddressHashMap.Get | source/runtime/common/address_hash_map.h:39-48 | Get returns the node stored at exactly that address, or nothing when there is none |
| AddressMap.AddressHashMap.Put | source/runtime/common/address_hash_map.h:73-88 | Put reports false exactly when check_exist is set and the address is taken; the contents gain the node unless its address is taken, and are otherwise unchanged |
| AddressMap.AddressHashMap.Remove | source/runtime/common/address_hash_map.h:90-101 | Remove returns the node at the address exactly when there is one, and the contents lose exactly that address |
| AddressMap.AddressHashMap.GetRange | source/runtime/common/address_hash_map.h:50-71 | the result is the scan of the buckets from the one holding 64 KB below start (never below addr_start) to the one holding end |
| AddressMap.AddressHashMap.ScanAscending | source/runtime/common/address_hash_map.h:50-71 | GetRange returns nodes in strictly ascending address order, so no node twice |
| AddressMap.AddressHashMap.GetRangeSound | source/runtime/common/address_hash_map.h:50-71 | every node GetRange returns is in the map, starts at or below end and overlaps the range |
| AddressMap.AddressHashMap.GetRangeComplete | source/runtime/common/address_hash_map.h:50-71 | every node of the map that starts inside [start, end] and overlaps it is returned |
| AddressMap.WindowHoldsPredecessor | source/runtime/common/address_hash_map.h:58-62 | the nodes walked in one bucket include the last node that starts below start |
| AddressMap.WindowSkipsEarlier | source/runtime/common/address_hash_map.h:58-62 | the walk reaches back one node only: a node with another node between it and start is not walked |
| AddressMap.ScanHoldsWindow | source/runtime/common/address_hash_map.h:56-69 | every overlapping node walked in a scanned bucket is collected |
| AddressMap.ScanInWindow | source/runtime/common/address_hash_map.h:56-69 | every collected node was walked in some scanned bucket |
| AddressMap.ScanFromAgrees | source/runtime/common/address_hash_map.h:53 | from 64 KB on, the subtraction does not wrap and the first address as written is the intended one |
| AddressMap.AddressHashMap.GetRangeAsWritten | source/runtime/common/address_hash_map.h:50-71 | as written, the result is the scan of the buckets from the one holding start - 64 KB taken modulo 2^64 (never below addr_start) to the one holding end |
| AddressMap.AddressHashMap.GetRangeAsWrittenFindsNothing | source/runtime/common/address_hash_map.h:50-71 | as written, a range starting below 64 KB returns nothing, even nodes at its very start |
| AddressMap.AddressHashMap.GetRangeAgrees | source/runtime/common/address_hash_map.h:50-71 | for a start of 64 KB or more, GetRange as written and as intended return the same nodes |
| AddressMap.AddressHashMap.GetRangeLookBack | source/runtime/common/address_hash_map.h:50-71 | a node that starts below start, no lower than the first scanned address, overlaps the range and is the last node before start in its bucket is returned |
| AddressMap.AddressHashMap.GetRangeLookBackOneNode | source/runtime/common/address_hash_map.h:58-67 | a node of a bucket with another node of that bucket between it and start is not returned, even when it overlaps |
| BackendModule.CodeCacheSizeSpec | source/runtime/backend/module.cpp:22-28 | a request of at most 256 MB gets the least page multiple at or above twice its size; a larger one gets 512 MB; every request up to 512 MB gets at least its own size |
| BackendModule.AllocCode | source/runtime/backend/code_cache.h:1-58 | a request that fits is handed the bytes just after those already used, and the cache's capacity is unchanged |
| BackendModule.FirstFit | source/runtime/backend/module.cpp:207-211 | the cache chosen is the first, in index order, that the request fits in, and none is chosen when no cache has room |
| BackendModule.FreshCacheHoldsUpTo512MB | source/runtime/backend/module.cpp:212-215 | every request up to 512 MB fits in the cache created for it |
| BackendModule.FreshCacheTooSmall | source/runtime/backend/module.cpp:212-215 | as written, a u32 request of 512 MB + 1 gets a 512 MB cache that cannot hold it, so the value dereferenced is empty |
| BackendModule.StateCode | source/runtime/backend/jit_code.h:12-20 | a JitState is stored as a code below 4, fitting the 2-bit field |
| BackendModule.StateOfCode | source/runtime/backend/jit_code.h:12-20 | each code below 4 reads back as the state that stores it |
| BackendModule.StateCodeRoundTrip | source/runtime/backend/jit_code.h:12-20 | reading back the code of a state gives that state |
| BackendModule.ReadJitField | source/runtime/backend/jit_code.h:19-28 | a JitCache field read is below 2^bits |
| BackendModule.ReadJitFieldIsBitField | source/runtime/backend/jit_code.h:19-28 | a JitCache field read is exactly the BitField read of the 64-bit word |
| BackendModule.ReadJitFieldAfterWrite | source/runtime/backend/jit_code.h:19-28 | assigning a value that fits a field, then reading the field, gives that value |
| BackendModule.JitFieldsRoundTrip | source/runtime/backend/jit_code.h:19-28 | after state, cache_id and offset_in are assigned in turn, each field reads back its own value |
| BackendModule.StateFieldRoundTrip | source/runtime/backend/jit_code.h:19-28 | after state, cache_id and offset_in are assigned, the state field reads back the state assigned |
| BackendModule.ToNodeRef | source/runtime/backend/module.cpp:30-39 | a function or block node gives a reference to itself, any other kind gives an empty reference |
| BackendModule.AddRef | source/runtime/backend/module.cpp:41-52 | a function or block node gets exactly one more reference; every other count is unchanged |
| BackendModule.Release | source/runtime/backend/module.cpp:54-65 | a function or block node loses exactly one reference; every other count is unchanged |
| BackendModule.AddAfterRelease | source/runtime/backend/module.cpp:41-65 | releasing then adding a reference leaves the counts as they were |
| BackendModule.RefsOfMeaning | source/runtime/backend/module.cpp:101-105 | the loop turns the i-th node found into the i-th reference, ToNodeRef of that node |
| BackendModule.RangeFacts | source/runtime/backend/module.cpp:97-125 | the nodes GetRange finds are in ascending order, are in the map and overlap the range, and include every overlapping node that starts inside it |
| BackendModule.ReleasedAllSnoc | source/runtime/backend/module.cpp:101-105 | releasing one more node not yet released extends the counts after the loop by that node |
| BackendModule.RemoveStep | source/runtime/backend/module.cpp:101-105 | one turn of the loop removes the i-th node's address, releases its reference and appends its reference to the result |
| BackendModule.Module.constructor | source/runtime/backend/module.cpp:67-75 | a new module covers [start, end] with 1 MB buckets and has no node, no reference and no code cache |
| BackendModule.Module.Push | source/runtime/backend/module.cpp:77-87 | Push succeeds exactly when no node sits at the node's location; then the node is added and gains one reference, and otherwise nothing changes |
| BackendModule.Module.Remove | source/runtime/backend/module.cpp:89-95 | the node's location leaves the map and the node loses one reference |
| BackendModule.Module.GetNode | source/runtime/backend/module.cpp:109-115 | the reference to the function or block node at exactly that location, or nothing |
| BackendModule.Module.GetNodes | source/runtime/backend/module.cpp:117-125 | the references to the nodes GetRange finds, in its order: every one overlaps the range, and every overlapping node starting inside the range is among them |
| BackendModule.Module.RemoveNext | source/runtime/backend/module.cpp:101-105 | one turn of RemoveRange's loop removes the i-th node found and releases its reference |
| BackendModule.Module.RemoveAll | source/runtime/backend/module.cpp:101-105 | the loop removes every node found, releases one reference on each and returns their references in order |
| BackendModule.Module.RemoveRange | source/runtime/backend/module.cpp:97-107 | every node GetRange finds is taken out of the map with its reference released, and their references are returned in order |
| BackendModule.Module.GetNodeOrCreate | source/runtime/backend/module.cpp:127-146 | an existing node at the location is returned unchanged; otherwise a new function or block node is registered there with one reference and returned |
| BackendModule.Module.JitEntry | source/runtime/backend/module.cpp:191-203 | a JIT entry leads to a code address exactly when it is Cached and names an existing code cache, and then to that cache at the entry's offset |
| BackendModule.Module.JitEntryOfWritten | source/runtime/backend/module.cpp:191-203 | an entry written as Cached with an existing cache id and an offset leads to exactly that cache and offset |
| BackendModule.Module.GetJitCache | source/runtime/backend/module.cpp:168-185 | the JIT entry of the function or block node at the location, and nothing when there is none |
| BackendModule.Module.AllocCodeCache | source/runtime/backend/module.cpp:205-216 | the request goes to the first cache it fits in; otherwise a new cache of ModuleCodeCacheSize bytes is added at the next index, and the request is refused when even that cache cannot hold it |
| Arena.ServeKeepsEarlier | source/runtime/common/mem_arena.h:53-70 | serving a request never touches the chunks before the current one, keeps the list or appends one fresh chunk, and leaves the region's chunk filled exactly to the region's end |
| Arena.ServeAppends | source/runtime/common/mem_arena.h:53-70 | the region comes from the current chunk exactly when the request fits there, starting at its old fill level; otherwise it starts at offset 0 of a new chunk |
| Arena.ServeWithin | source/runtime/common/mem_arena.h:53-70 | for requests no larger than the chunk size, every chunk stays within its capacity and the region lies inside its chunk |
| Arena.ServeAdjacent | source/runtime/common/mem_arena.h:53-58 | two requests served one after the other from the same chunk are adjacent |
| Arena.OversizedRequestOverruns | source/runtime/common/mem_arena.h:53-70 | as written, a 5000-byte request in an arena of 4096-byte chunks is served from a fresh 4096-byte chunk and runs past its end |
| Arena.MemArena.constructor | source/runtime/common/mem_arena.h:13-15 | a new arena holds one empty chunk of the chunk size, and it is current |
| Arena.MemArena.FreeChunk | source/runtime/common/mem_arena.h:64-70 | the current chunk is returned when the request fits it; otherwise a fresh chunk of the chunk size is appended and becomes current |
| Arena.MemArena.Memory | source/runtime/common/mem_arena.h:53-58 | the chunks and the region served are those Serve specifies |
| Arena.MemArena.Create | source/runtime/common/mem_arena.h:17-21 | room for one object is served as Memory(sizeof(T)) |
| Arena.MemArena.CreateArray | source/runtime/common/mem_arena.h:23-25 | room for n objects is served as Memory(sizeof(T) * n) |
| Slab.PopAfterPush | source/runtime/common/slab_alloc.cc:5-24 | Free(x) then Allocate() returns x and restores the free list: the list is last-in first-out |
| Slab.ListLength | source/runtime/common/slab_alloc.cc:5-24 | Free grows the free list by one; Allocate succeeds exactly on a non-empty list, returns one of its objects and shrinks it by one, and leaves an empty list unchanged |
| Slab.Slots | source/runtime/common/slab_alloc.h:87-96 | Initialize carves exactly memory_size / object_size slots |
| Slab.SlotsIndex | source/runtime/common/slab_alloc.h:87-96 | slot k lies at start + k * object_size |
| Slab.PushBelow | source/runtime/common/slab_alloc.h:91-96 | freeing the slot just below a run of freed slots extends the run downwards |
| Slab.PopMany | source/runtime/common/slab_alloc.cc:5-15 | k allocations in a row give k results |
| Slab.PopManySlots | source/runtime/common/slab_alloc.h:80-97 | after Initialize, successive allocations hand out the slots in ascending address order |
| Slab.SlabAllocator.constructor | source/runtime/common/slab_alloc.h:15 | a new allocator has an empty free list and object size 0 |
| Slab.SlabAllocator.Initialize | source/runtime/common/slab_alloc.h:17 | the object size is set and the free list is unchanged |
| Slab.SlabAllocator.Allocate | source/runtime/common/slab_alloc.cc:5-15 | the head of the free list is returned and leaves the list; nothing is returned for an empty list |
| Slab.SlabAllocator.Free | source/runtime/common/slab_alloc.cc:17-24 | the object becomes the head of the free list |
| Slab.SlabHeap.constructor | source/runtime/common/slab_alloc.h:34 | a new heap is empty: no free object and an empty address range |
| Slab.SlabHeap.Initialize | source/runtime/common/slab_alloc.h:80-97 | the heap spans as many whole objects as fit from the memory's start, and every one of them is pushed on the free list from the highest address down |
| Slab.SlabHeap.Allocate | source/runtime/common/slab_alloc.h:70-73 | the allocator's Allocate |
| Slab.SlabHeap.Free | source/runtime/common/slab_alloc.h:75-78 | an object inside the heap is pushed on the free list |
| Slab.TryAllocate | source/runtime/common/slab_alloc.h:136-144 | with override set and a free object, the slab's head is taken; otherwise the object comes from malloc and the slab is unchanged |
| Slab.TryFree | source/runtime/common/slab_alloc.h:146-152 | the object goes back to the slab exactly when override is set and the heap contains it, otherwise to free and the slab is unchanged |
| Slab.HeapGeometry | source/runtime/common/slab_alloc.h:47-55 | after Initialize, GetSlabHeapSize is the number of objects carved and slot k has GetObjectIndexImpl k |
| HostIsa.AlignmentByIsa | source/runtime/backend/host_isa.h:32-52 | Arm, Arm64, RISC-V 32/64 and LoongArch align instructions to 4 bytes, x86 and x86-64 to 1, and exactly kNone and unknown codes get 0 |
| HostIsa.AlignmentIsPow2 | source/runtime/backend/host_isa.h:32-52 | every nonzero instruction alignment is a power of two |
| HostIsa.CodeAlignmentCoversInstructions | source/runtime/backend/host_isa.h:12-35 | for Arm, Arm64 and x86 the code alignment is a multiple of the instruction alignment |
| IrLocation.EqualIsIdentity | source/runtime/ir/location.h:17-19 | operator== on Locations holds exactly for equal Locations, and operator!= is its negation |
| IrLocation.LessIsStrictTotal | source/runtime/ir/location.h:27-45 | operator< (and std::less) is irreflexive, transitive, asymmetric and total on distinct Locations, and operator> is its converse |
| IrLocation.HashRespectsEqual | source/runtime/ir/location.h:46-51 | equal Locations get the same std::hash, whatever the size_t hash is |
| IrArgs.OrdinalInjective | source/runtime/ir/args.cpp:46-48 | distinct value types have distinct enum positions, so the range test in IsSigned compares types |
| IrArgs.CondValue | source/runtime/ir/args.h:23-42 | every condition code is below 16 |
| IrArgs.CondValueInjective | source/runtime/ir/args.h:23-42 | the sixteen condition codes have distinct values, and HS and LO have the values of CS and CC |
| IrArgs.Get | source/runtime/ir/args.cpp:13-26 | Get returns a 64-bit value: the member of the tag's width for U8..U64 and 0 for every other tag |
| IrArgs.GetSigned | source/runtime/ir/args.cpp:28-44 | GetSigned always lies in the signed 64-bit range |
| IrArgs.ImmBool | source/runtime/ir/args.h:51 | a bool immediate is tagged BOOL, is not signed, and Get reads 0 from it |
| IrArgs.ImmU8 | source/runtime/ir/args.h:52 | a u8 immediate is tagged U8 and both Get and GetSigned read back its value |
| IrArgs.ImmU16 | source/runtime/ir/args.h:53 | a u16 immediate is tagged U16 and both Get and GetSigned read back its value |
| IrArgs.ImmU32 | source/runtime/ir/args.h:54 | a u32 immediate is tagged U32 and both Get and GetSigned read back its value |
| IrArgs.ImmU64 | source/runtime/ir/args.h:55 | a u64 immediate is tagged U64, Get reads back its value, and GetSigned reads it as a two's-complement 64-bit number |
| IrArgs.SignedTags | source/runtime/ir/args.cpp:28-48 | IsSigned holds exactly for S8..S64; the U8, U16 and U32 tags read the same, non-negative, through Get and GetSigned; every non-unsigned tag reads 0 through Get |
| IrArgs.IsNegateIffTopBit | source/runtime/ir/args.cpp:50-56 | IsNegate holds exactly for a signed tag whose member has its top bit set |
| IrArgs.ValueEqIsDefEquality | source/runtime/ir/args.cpp:91-93 | Value equality compares the defining instruction only: it is an equivalence, ignores the cast type, and with equal cast types means identical values |
| IrArgs.UniformEqIgnoresType | source/runtime/ir/args.cpp:171-173 | Uniform equality is an equivalence that ignores the type: two uniforms are equal exactly when they agree once given the same type, so exactly when their offsets agree |
| IrArgs.FlagComposites | source/runtime/ir/args.h:159-168 | NegZero, NZCV and All are the ORs of their component flags |
| IrArgs.TrimSeparators | source/runtime/ir/args.cpp:212-213 | trimming gives a prefix of the string that ends in neither ',' nor ' ' |
| IrArgs.UntrimmedIsJoinPlusSeparator | source/runtime/ir/args.cpp:193-211 | before trimming, the string is each set flag's name followed by ", " |
| IrArgs.TrimJoin | source/runtime/ir/args.cpp:212-213 | trimming a name that ends in F, followed by ", ", gives back the name |
| IrArgs.FlagsStringIsJoin | source/runtime/ir/args.cpp:192-215 | FlagsString lists the set flags as CF, OF, ZF, SF, AF, PF in that order, joined by ", " with no trailing separator, and is empty exactly when none is set |
| IrArgs.Tag | source/runtime/ir/args.h:269-314 | GetType returns exactly the tag of the constructor that built the argument |
| IrArgs.ToArgClass | source/runtime/ir/args.cpp:95-103 | a Value or Imm keeps its tag; every other tag panics |
| IrArgs.OneSided | source/runtime/ir/args.cpp:153-155 | the one-operand constructor leaves the right side Void and the default op |
| IrArgs.ParamList.constructor | source/runtime/ir/args.h:189-253 | a new parameter list is empty |
| IrArgs.ParamList.Push | source/runtime/ir/args.cpp:131-141 | Push walks to the tail and links the new parameter after it, so the contents grow by exactly that parameter at the end |
| IrArgs.ParamList.Values | source/runtime/ir/args.h:203-246 | the walk from first_param along next_node yields the parameters in list order |
| IrArgs.ParamList.Destroy | source/runtime/ir/args.cpp:143-151 | Destroy frees every node, one per parameter, in list order, and leaves first_param pointing at the freed head: a non-empty list is left dangling and no longer valid, an empty one untouched |
| IrArgs.PushAll | source/runtime/ir/args.cpp:127-141 | pushing a sequence of parameters appends them in push order |
| IrInst.NewInst | source/runtime/ir/instr.h:49-60 | a new instruction has four Void argument slots, no uses and no pseudo operation linked |
| IrInst.TypeOf | source/runtime/ir/args.cpp:70-76 | a Value's type is its cast type when it has one, otherwise the return type of its defining instruction |
| IrInst.TailFrom | source/runtime/ir/instr.cpp:111-124 | the walk along next_pseudo_inst, when it ends, ends at an instruction with no successor |
| IrInst.PredFrom | source/runtime/ir/instr.cpp:126-140 | the walk looking for the predecessor of a pseudo operation, when it succeeds, stops at an instruction whose next_pseudo_inst is that operation |
| IrInst.ChainUnique | source/runtime/ir/instr.cpp:111-154 | an instruction has at most one chain of pseudo operations |
| IrInst.ChainShorter | source/runtime/ir/instr.cpp:111-154 | a chain is shorter than the instruction list, so every walk along it ends |
| IrInst.TailFromChain | source/runtime/ir/instr.cpp:114-118 | Use's walk reaches the last pseudo operation of the chain, or the definition itself when the chain is empty |
| IrInst.PredFromChain | source/runtime/ir/instr.cpp:129-137 | UnUse's walk stops at the chain member just before the operation, or at the definition for the first member |
| IrInst.CountFromChain | source/runtime/ir/instr.cpp:145-152 | the pseudo-operation count of GetUses is the length of the chain |
| IrInst.UseSpec | source/runtime/ir/instr.cpp:111-124 | Use changes only use counts and pseudo links: every instruction keeps its opcode, arguments, id and return type |
| IrInst.UnUseSpec | source/runtime/ir/instr.cpp:126-140 | UnUse changes only use counts and pseudo links |
| IrInst.UseAppendsToChain | source/runtime/ir/instr.cpp:111-124 | a pseudo operation that uses a value is appended at the end of its definition's chain, and the use count goes up by one modulo 256 |
| IrInst.UseCountsOnly | source/runtime/ir/instr.cpp:111-113 | an ordinary user only raises the definition's u8 use count |
| IrInst.UnlinkChain | source/runtime/ir/instr.cpp:129-137 | unlinking a chain member leaves the chain without it, and the member without a successor |
| IrInst.UnUseUnlinks | source/runtime/ir/instr.cpp:126-140 | a pseudo operation that stops using a value leaves its definition's chain, the rest of the chain keeps its order, and the use count goes down by one modulo 256 |
| IrInst.UseUnUsePseudo | source/runtime/ir/instr.cpp:111-140 | for a pseudo operation, Use then UnUse restores every instruction |
| IrInst.UseUnUseRoundTrip | source/runtime/ir/instr.cpp:111-140 | for any user, Use then UnUse of a value restores every instruction |
| IrInst.GetUsesExcludesChain | source/runtime/ir/instr.cpp:142-154 | GetUses is the use count, or, with exclude_pseudo, the use count less the length of the pseudo chain, modulo 256 |
| IrInst.UseAll | source/runtime/ir/instr.cpp:101-109 | using a list of values changes only use counts and pseudo links, and every value was defined |
| IrInst.UnUseAll | source/runtime/ir/instr.cpp:256-272 | un-using a list of values changes only use counts and pseudo links, and every value was defined |
| IrInst.UseAllCounts | source/runtime/ir/instr.cpp:101-109 | using a list of values raises each instruction's count by the number of times it occurs in the list, modulo 256 |
| IrInst.UnUseAllCounts | source/runtime/ir/instr.cpp:256-272 | un-using a list of values lowers each instruction's count by the number of times it occurs, modulo 256 |
| IrInst.UseAllUnUseAll | source/runtime/ir/instr.cpp:101-109 | using and then un-using the same values restores every instruction |
| IrInst.UseAllSucceeds | source/runtime/ir/instr.cpp:101-109 | using a list of values succeeds exactly when every value is defined |
| IrInst.DestroyArgSpec | source/runtime/ir/instr.cpp:256-272 | DestroyArg resets slot idx to Void and touches no other slot of any instruction, no opcode and no return type |
| IrInst.Overwrite | source/runtime/ir/instr.cpp:20-84 | each SetArg overload first destroys the old slot and then stores the new argument there, touching no other slot |
| IrInst.SetArgSpec | source/runtime/ir/instr.cpp:20-84 | SetArg stores the argument in slot idx and keeps the opcode |
| IrInst.SetArgPlaces | source/runtime/ir/instr.cpp:20-84 | SetArg writes slot idx of the user only: no other instruction's arguments or return type change, and no opcode or id changes |
| IrInst.SetArgReturnType | source/runtime/ir/instr.cpp:20-79 | a set return type never changes; an untyped value-producing instruction takes the type of an Imm or Uniform argument, one with a result that of a Local |
| IrInst.SetArgCounts | source/runtime/ir/instr.cpp:20-84 | after SetArg each instruction's use count is lowered by its uses in the old slot and raised by its uses in the new argument, modulo 256 |
| IrInst.OverwriteCounts | source/runtime/ir/instr.cpp:256-272 | destroying the old slot lowers each count by that instruction's uses in the slot |
| IrInst.AdoptKeepsUses | source/runtime/ir/instr.cpp:20-79 | adopting a return type does not change the use count |
| IrInst.SetArgOnEmptySlot | source/runtime/ir/instr.cpp:20-84 | on a Void slot, SetArg is the plain store followed by the uses of the new argument and the type adoption |
| IrInst.SetArgDestroyArg | source/runtime/ir/instr.cpp:20-272 | on an empty slot of an ordinary user, SetArg then DestroyArg restores every instruction except for the return type SetArg adopted |
| IrInst.SideArg | source/runtime/ir/instr.cpp:86-99 | a side of an Operand becomes the argument of its class, and only a Void side becomes Void |
| IrInst.SetOperand | source/runtime/ir/instr.cpp:86-99 | SetArg of an Operand fits in the four slots, keeps the opcode and writes the operator and the two sides to slots idx, idx+1 and idx+2 |
| IrInst.GetOperand | source/runtime/ir/instr.h:79-90 | GetArg of an Operand succeeds exactly when idx+2 is a slot and slot idx holds an operator |
| IrInst.OneSidedOperandPanics | source/runtime/ir/instr.cpp:86-99 | as written, SetArg of a one-sided Operand always fails, because ToArgClass panics on its Void right side |
| IrInst.SetOperandGetOperand | source/runtime/ir/instr.cpp:86-99 | GetArg reads back the Operand SetArg stored |
| IrInst.SetOperandAgrees | source/runtime/ir/instr.cpp:86-99 | for an Operand with two sides, the corrected SetArg is the one as written |
| IrInst.SetOperandSucceeds | source/runtime/ir/instr.cpp:86-99 | SetArg of an Operand succeeds on three empty slots of an ordinary user whose side values are defined |
| IrInst.EmptyOverwrite | source/runtime/ir/instr.cpp:256-272 | destroying an empty slot changes nothing, so the overwrite is the plain store |
| IrInst.SetOne | source/runtime/ir/instr.h:37-45 | one step of SetArgs places its argument at the running index, inside the four slots, and changes no other slot |
| IrInst.SetArgsFrom | source/runtime/ir/instr.h:33-47 | SetArgs keeps the opcode, leaves the slots before the start alone, and succeeds only when all arguments fit in the four slots |
| IrInst.TotalWidthSplit | source/runtime/ir/instr.h:33-47 | the slot count of a prefix grows by the width of the next argument and never exceeds the total |
| IrInst.SetArgsCheckBounds | source/runtime/ir/instr.h:33-47 | under the corrected check every argument lies inside the four slots |
| IrInst.SetArgsCheckAsWrittenOverflows | source/runtime/ir/instr.h:33-47 | as written, the check passes three arguments whose last is an Operand, which needs five slots |
| IrInst.SetArgsAsWrittenFails | source/runtime/ir/instr.h:33-60 | creating an instruction with those three arguments fails: the Operand would be written past the last slot |
| IrInst.SetArgsFromFirst | source/runtime/ir/instr.h:37-45 | SetArgs is its first SetArg followed by SetArgs on the rest from the next free slot |
| IrInst.SetArgsPlaces | source/runtime/ir/instr.h:33-47 | each argument of SetArgs ends up at its offset, the sum of the widths before it |
| IrInst.SetArgsPlacesHead | source/runtime/ir/instr.h:37-45 | the first argument of SetArgs ends up at the start index |
| IrInst.Create | source/runtime/ir/instr.h:56-60 | Inst::Create appends one instruction with the given opcode |
| IrInst.SetArgsSucceeds | source/runtime/ir/instr.h:33-60 | SetArgs succeeds when its arguments fit the free slots of an ordinary instruction and their values are defined |
| IrInst.PublicIndex | source/runtime/ir/instr.cpp:333-345 | the corrected public index is defined exactly when the slot of parameter n lies inside the four slots, and is that slot |
| IrInst.PublicIndexCount | source/runtime/ir/instr.cpp:333-345 | the counting loop over parameters computes the slot of parameter n |
| IrInst.OpsMonotone | source/runtime/ir/instr.cpp:333-345 | the number of Operand parameters grows with the prefix |
| IrInst.PublicIndexLoopFacts | source/runtime/ir/instr.cpp:336-343 | the loop as written stops at the first index i with i = n + 2 x (Operands among the first i) |
| IrInst.PublicIndexAsWrittenSound | source/runtime/ir/instr.cpp:333-345 | where the loop as written returns a slot, it is the correct one |
| IrInst.PublicIndexAsWrittenReadsPast | source/runtime/ir/instr.cpp:333-345 | for parameters Operand, Value and n = 1, the loop as written runs off the parameter list while the correct slot is 3 |
| IrInst.SlotOfMonotone | source/runtime/ir/instr.cpp:289-345 | a later parameter never sits in an earlier slot |
| IrInst.ValidateSlotsAsWrittenSound | source/runtime/ir/instr.cpp:303-319 | whatever the slot walk as written accepts, the intended walk accepts |
| IrInst.ValidateSlotsReadsPast | source/runtime/ir/instr.cpp:309-319 | for meta types Value, Value and arguments Value, Value, Void, Void, the walk as written reads past the listed types at slot 2 and fails, while the intended walk accepts |
| IrInst.ValidateSlotsIff | source/runtime/ir/instr.cpp:303-319 | the intended walk accepts exactly when each listed type whose slot lies inside the four slots is the type of that slot, and every slot after the last listed argument is Void |
| IrInst.ValidateSlotsVoidTail | source/runtime/ir/instr.cpp:308-319 | once the listed types are used up, the intended walk accepts exactly when every remaining slot is Void |
| IrInst.ValidateSlotsAt | source/runtime/ir/instr.cpp:289-331 | a passing Validate has, at each parameter's slot, an argument of that parameter's type |
| IrInst.ValidatePublicIndex | source/runtime/ir/instr.cpp:289-345 | on an instruction that passes Validate, the argument at PublicIndex(n) has the type of parameter n |
| IrInst.PseudosFromChain | source/runtime/ir/instr.cpp:233-242 | GetPseudoOperations returns the pseudo chain, in order |
| IrInst.FindPseudoChain | source/runtime/ir/instr.cpp:221-231 | GetPseudoOperation returns the first chain member with the opcode, or none exactly when no member has it |
| IrInst.HasFlagsSaveChain | source/runtime/ir/instr.cpp:244-254 | HasFlagsSavePseudo holds exactly when some member of the chain is SaveFlags |
| IrInst.ArgsValuesMember | source/runtime/ir/instr.cpp:156-173 | GetValues lists exactly the values held by some argument slot |
| IrInst.HeldByShrinks | source/runtime/ir/instr.cpp:156-173 | a value held by the slots is held by the earlier slots or by the last one |
| IrInst.HeldByGrows | source/runtime/ir/instr.cpp:156-173 | a value held by the earlier slots or the last one is held by the slots |
| IrInst.ParamValuesSnoc | source/runtime/ir/instr.cpp:163-167 | the values of a parameter list grow by the next parameter's value, if it has one |
| IrInst.AppendArgValues | source/runtime/ir/instr.cpp:156-173 | one step of GetValues appends the values the slot holds: a Value, the Value address of a Lambda, or the Value parameters |
| IrInst.InstPool.constructor | source/runtime/ir/instr.h:49-60 | a pool starts with the given instructions |
| IrInst.InstPool.Use | source/runtime/ir/instr.cpp:111-124 | Use succeeds exactly when the specification does, and leaves the instructions it gives |
| IrInst.InstPool.UnUse | source/runtime/ir/instr.cpp:126-140 | UnUse succeeds exactly when the specification does, and leaves the instructions it gives |
| IrInst.InstPool.GetUses | source/runtime/ir/instr.cpp:142-154 | the loop computes GetUses as specified |
| IrInst.InstPool.GetPseudoOperations | source/runtime/ir/instr.cpp:233-242 | the loop collects the pseudo chain as specified |
| IrInst.InstPool.GetPseudoOperation | source/runtime/ir/instr.cpp:221-231 | the loop finds the pseudo operation as specified |
| IrInst.InstPool.GetValues | source/runtime/ir/instr.cpp:156-173 | the loop returns the values of all slots, in slot order |
| IrInst.InstPool.UnUseEach | source/runtime/ir/instr.cpp:256-272 | un-using each value succeeds exactly when the specification does, and leaves the instructions it gives |
| IrInst.InstPool.UseEach | source/runtime/ir/instr.cpp:101-109 | using each value succeeds exactly when the specification does, and leaves the instructions it gives |
| IrInst.InstPool.DestroyArg | source/runtime/ir/instr.cpp:256-272 | DestroyArg succeeds exactly when the specification does, and leaves the instructions it gives |
| IrInst.InstPool.SetArg | source/runtime/ir/instr.cpp:20-84 | SetArg succeeds exactly when the specification does, and leaves the instructions it gives |
| IrInst.InstPool.WalkSlots | source/runtime/ir/instr.cpp:306-319 | the loop over inner_arg_index and arg_index, bounded by the listed types, computes the intended slot walk, that is, exactly the typing SlotsTypedFrom describes |
| IrInst.InstPool.PublicIndex | source/runtime/ir/instr.cpp:333-345 | the loop as written computes the public index of the as-written function |
| IrBlock.HasTerminalAsWrittenOnFreshBlock | source/runtime/ir/block.cpp:19 | a fresh block's terminal is the default Invalid, yet HasTerminal as written reports a terminal, while the intended query does not |
| IrBlock.Compare | source/runtime/ir/block.h:53-61 | Compare is 1 exactly when the left block starts first, -1 exactly when the right one does, and 0 exactly on the same start location |
| IrBlock.CompareAntisymmetric | source/runtime/ir/block.h:46-61 | Compare(a, b) == -Compare(b, a), and 0 exactly on equal locations |
| IrBlock.ReId | source/runtime/ir/block.cpp:53-58 | re-numbering keeps the number of instructions in the arena |
| IrBlock.ReIdStep | source/runtime/ir/block.cpp:55-57 | each loop step gives the next instruction of the list the next u16 id |
| IrBlock.IdSucc | source/runtime/ir/block.cpp:54-56 | the u16 counter index++ wraps like the count it follows |
| IrBlock.ReIdOnlyIds | source/runtime/ir/block.cpp:53-58 | re-numbering changes ids only, and no instruction outside the list |
| IrBlock.ReIdPositions | source/runtime/ir/block.cpp:53-58 | after re-numbering, the k-th instruction of the list has id k modulo 2^16 |
| IrBlock.AfterSetTerminal | source/runtime/ir/block.cpp:12-17 | SetTerminal keeps the number of instructions in the arena |
| IrBlock.AfterSetTerminalNumbers | source/runtime/ir/block.cpp:12-17 | a non-empty block whose first instruction had the invalid id is numbered 0, 1, 2, ... after SetTerminal |
| IrBlock.IndexOf | source/runtime/ir/block.cpp:38 | the position found holds the instruction, and no earlier position does |
| IrBlock.RemoveFirst | source/runtime/ir/block.cpp:38 | erasing an instruction of the list makes the list one shorter |
| IrBlock.RemoveFirstMembers | source/runtime/ir/block.cpp:38-43 | on a duplicate-free list, erase removes exactly the given instruction and keeps the list duplicate-free |
| IrBlock.RemoveFirstOrder | source/runtime/ir/block.cpp:38-43 | erase keeps the relative order of the other instructions |
| IrBlock.Block.constructor | source/runtime/ir/block.h:18 | a new block has its id and start location, no instructions and the default Invalid terminal |
| IrBlock.Block.SetEndLocation | source/runtime/ir/block.cpp:60 | SetEndLocation sets the end location and nothing else |
| IrBlock.Block.ReIdInstr | source/runtime/ir/block.cpp:53-58 | the loop leaves the arena re-numbered in list order |
| IrBlock.Block.SetTerminal | source/runtime/ir/block.cpp:12-17 | SetTerminal stores the terminal, keeps the list, and re-numbers only when the first instruction had the invalid id |
| IrBlock.Block.AppendInst | source/runtime/ir/block.cpp:21-24 | AppendInst appends the instruction at the end of the list exactly when it passes Validate, and leaves the list unchanged otherwise |
| IrBlock.Block.AppendNew | source/runtime/ir/block.h:24-29 | the template creates a new instruction with its arguments set and appends it last; it fails only where SetArgs or Validate does |
| IrBlock.Block.RemoveInst | source/runtime/ir/block.cpp:38 | RemoveInst erases exactly that instruction from the list and keeps the terminal |
| IrBlock.Block.DestroyInst | source/runtime/ir/block.cpp:40-43 | DestroyInst erases exactly that instruction from the list and keeps the terminal |
| IrBlock.Block.DestroyInstrs | source/runtime/ir/block.cpp:45-51 | DestroyInstrs leaves the list empty and keeps the terminal |
| HirBuilder.UseTagsDisjoint | source/runtime/ir/hir_builder.h:84-97 | a use is never both a function-call use (253) and a phi use (254), and neither tag is USE_NIL or an argument slot |
| HirBuilder.DefaultAllocated | source/runtime/ir/hir_builder.h:68-80 | a default-constructed ValueAllocated is not allocated |
| HirBuilder.ValueCompare | source/runtime/ir/hir_builder.h:121-129 | Compare is 1 exactly when rhs has the greater order id, -1 exactly when the smaller, 0 exactly when equal |
| HirBuilder.ValueCompareAntisymmetric | source/runtime/ir/hir_builder.h:121-129 | Compare(a, b) == -Compare(b, a) |
| HirBuilder.FindUse | source/runtime/ir/hir_builder.cpp:68-70 | find_if returns the first use matching (inst, idx), or the end when none matches |
| HirBuilder.UnUseSpec | source/runtime/ir/hir_builder.cpp:67-74 | UnUse changes nothing when no use matches, otherwise removes exactly the first match and keeps the other uses in order |
| HirBuilder.NewHBlock | source/runtime/ir/hir_builder.cpp:240-242 | a new HIR block has its order id and start location, no instructions and no edges |
| HirBuilder.FindBlock | source/runtime/ir/hir_builder.cpp:234-236 | the search finds a listed block starting at the location, or fails exactly when no listed block starts there |
| HirBuilder.Srcs | source/runtime/ir/hir_builder.cpp:216-219 | the predecessors are the sources of the incoming edges, in edge order |
| HirBuilder.Dests | source/runtime/ir/hir_builder.cpp:221-224 | the successors are the destinations of the outgoing edges, in edge order |
| HirBuilder.ClearDominates | source/runtime/ir/hir_builder.cpp:173-177 | exactly the listed edges lose their DOMINATES flag |
| HirBuilder.ClearAll | source/runtime/ir/hir_builder.cpp:174-176 | the loop clears DOMINATES on the destination's incoming edges as specified |
| HirBuilder.LinkKeepsInside | source/runtime/ir/hir_builder.cpp:164-178 | a new edge between two existing blocks keeps every edge list pointing at existing edges and block ids in order |
| HirBuilder.ClearKeepsInside | source/runtime/ir/hir_builder.cpp:173-177 | clearing DOMINATES keeps every edge's ends and CONDITIONAL flag |
| HirBuilder.FindValue | source/runtime/ir/hir_builder.cpp:154-160 | GetHIRValue finds the HIR value of a definition, or none exactly when the map has no value of that definition |
| HirBuilder.AddUsesCounts | source/runtime/ir/hir_builder.cpp:118-126 | with one HIR value per definition, each value gains the use (inst, i) once per parameter it defines, and nothing else changes |
| HirBuilder.AddArgUsesSpec | source/runtime/ir/hir_builder.cpp:106-129 | each HIR value gains, after its old uses and in slot order, exactly one use per Value, Lambda value or parameter value of a slot that it defines; values stay one per definition |
| HirBuilder.UseListEmpty | source/runtime/ir/hir_builder.cpp:106-129 | a value no slot refers to gains no use |
| HirBuilder.Created | source/runtime/ir/hir_builder.cpp:103-105 | an instruction gets one new HIR value, in the current block and without uses, exactly when it has a result |
| HirBuilder.RaisedLocalId | source/runtime/ir/hir_builder.cpp:130-139 | max_local_id only grows, covers the local of a LoadLocal or StoreLocal, and changes only to that local's id |
| HirBuilder.RpoDefsHandles | source/runtime/ir/hir_builder.cpp:186-196 | every definition numbered is an instruction of the arena |
| HirBuilder.IdByRPOConsecutive | source/runtime/ir/hir_builder.cpp:186-196 | when no definition is listed twice, the k-th definition in RPO block order gets id k (u16), consecutively from 0 |
| HirBuilder.NumberBlock | source/runtime/ir/hir_builder.cpp:190-194 | the inner loop numbers the block's values after the ids handed out so far and advances the counter by their number |
| HirBuilder.DefsOfBlockSnoc | source/runtime/ir/hir_builder.cpp:190-194 | one more value of the map adds its definition when it belongs to the block |
| HirBuilder.ReIdSnoc | source/runtime/ir/hir_builder.cpp:191-193 | one more definition numbered gets the next id and changes nothing else |
| HirBuilder.NumberValue | source/runtime/ir/hir_builder.cpp:191-193 | one value of the block takes the next id |
| HirBuilder.NumberRpo | source/runtime/ir/hir_builder.cpp:186-196 | the outer loop numbers the definitions in RPO block order with one running counter |
| HirBuilder.TwoValuesRpo | source/runtime/ir/hir_builder.cpp:188-190 | with one value in each of two blocks, the intended order visits each definition once, in block order |
| HirBuilder.TwoValuesAsWritten | source/runtime/ir/hir_builder.cpp:188-190 | with one value in each of two blocks, the order as written visits both definitions once per block |
| HirBuilder.ReIdTwice | source/runtime/ir/hir_builder.cpp:190-193 | numbering the definitions 0, 1, 0, 1 leaves the first with id 2 |
| HirBuilder.IdByRPOAsWrittenSkipsIds | source/runtime/ir/hir_builder.cpp:186-196 | as written, with two blocks and one value each, the first value ends with id 2 instead of 0, because each block's value map is the whole function's |
| HirBuilder.CasesStep | source/runtime/ir/hir_builder.cpp:286-291 | one more Switch case opens its block and adds its conditional edge after those of the earlier cases, whose blocks and edges are kept |
| HirBuilder.OrderSucc | source/runtime/ir/hir_builder.cpp:241 | the u16 counter block_order_id++ counts like the number of blocks, modulo 2^16 |
| HirBuilder.NewBlockKeeps | source/runtime/ir/hir_builder.cpp:240-243 | a new block with the next order id keeps block ids in order and edge lists pointing at existing edges |
| HirBuilder.LinkedKeeps | source/runtime/ir/hir_builder.cpp:206-225 | filling in predecessors and successors keeps every block's order id, edges and start |
| HirBuilder.HIRFunction.constructor | source/runtime/ir/hir_builder.cpp:86-92 | a new function has one block, at begin, which is current, no edges, no values and block counter 1 |
| HirBuilder.HIRFunction.MaxBlockCount | source/runtime/ir/hir_builder.cpp:229 | MaxBlockCount is the number of blocks created, modulo 2^16 |
| HirBuilder.HIRFunction.FindListed | source/runtime/ir/hir_builder.cpp:234-236 | the search loop over the block list computes the specified search |
| HirBuilder.HIRFunction.CreateOrGetBlock | source/runtime/ir/hir_builder.cpp:233-245 | the listed block starting at the location is returned unchanged; otherwise a new block with the next order id is appended to the blocks and the list |
| HirBuilder.HIRFunction.AppendBlock | source/runtime/ir/hir_builder.cpp:94-99 | the block at start becomes current with end location end; at most one block is added and no other block changes |
| HirBuilder.HIRFunction.AddCase | source/runtime/ir/hir_builder.cpp:288-289 | a Switch case opens the block at its location and adds one conditional edge to it from the block before, after the existing edges |
| HirBuilder.HIRFunction.AddBranches | source/runtime/ir/hir_builder.cpp:273-276 | If opens the else and then blocks, adds the edge pre→then and then pre→else, both conditional, and leaves then current |
| HirBuilder.HIRFunction.AddEdge | source/runtime/ir/hir_builder.cpp:164-178 | the new edge is last among src's outgoing and dest's incoming edges; when dest had incoming edges, DOMINATES is cleared on all of them; nothing else changes |
| HirBuilder.HIRFunction.AppendInst | source/runtime/ir/hir_builder.cpp:101-140 | a valid instruction joins the current block, gets an HIR value with the next order id when it has a result, registers its uses and raises max_local_id; an invalid one changes nothing; either way every argument slot of the instruction, Params lists included, stays as it was |
| HirBuilder.RegisterParamsAsWritten | source/runtime/ir/hir_builder.cpp:118-128 | the Params branch as written reads the parameters in list order and then frees the list, so a list that had a parameter is left dangling and no longer valid |
| HirBuilder.HIRFunction.AddToCurrent | source/runtime/ir/hir_builder.cpp:102 | the instruction joins the current block's list and max_local_id is raised; nothing else changes |
| HirBuilder.HIRFunction.AddValue | source/runtime/ir/hir_builder.cpp:103-129 | the HIR value of an instruction with a result is created with the next order id, and the uses of its arguments are registered |
| HirBuilder.HIRFunction.RegisterUses | source/runtime/ir/hir_builder.cpp:106-129 | the slot loop registers exactly the uses of AddArgUses |
| HirBuilder.HIRFunction.EndBlock | source/runtime/ir/hir_builder.cpp:198-201 | the current block gets the terminal, its instructions are re-numbered as SetTerminal does, and there is no current block |
| HirBuilder.HIRFunction.Predecessors | source/runtime/ir/hir_builder.cpp:216-219 | the loop fills in the sources of the incoming edges, in order |
| HirBuilder.HIRFunction.Successors | source/runtime/ir/hir_builder.cpp:221-224 | the loop fills in the destinations of the outgoing edges, in order |
| HirBuilder.HIRFunction.BuildLinks | source/runtime/ir/hir_builder.cpp:205-226 | every listed block gets the sources of its incoming edges as predecessors and the destinations of its outgoing edges as successors, vector entry h names block h, and the list is emptied |
| HirBuilder.HIRFunction.LinkListed | source/runtime/ir/hir_builder.cpp:206-225 | the block loop fills in every listed block |
| HirBuilder.HIRFunction.LinkOne | source/runtime/ir/hir_builder.cpp:207-224 | one listed block is recorded in the vector and gets its predecessors and successors |
| HirBuilder.HIRFunction.EndFunction | source/runtime/ir/hir_builder.cpp:203-227 | the current block ends with PopRSBHint, every listed block gets its predecessors and successors in edge order, vector entry h names block h, and the list is emptied |
| HirBuilder.HIRFunction.IdByRPO | source/runtime/ir/hir_builder.cpp:186-196 | the corrected numbering re-numbers the definitions in RPO block order |
| HirBuilder.HIRFunction.DestroyHIRValue | source/runtime/ir/hir_builder.cpp:142 | DestroyHIRValue erases that one value from the map and changes nothing else |
| HirBuilder.GetNextLocation | source/runtime/ir/hir_builder.cpp:310-322 | GetNextLocation gives the target of LinkBlock and LinkBlockFast, and fails on every other terminal |
| HirBuilder.HIRBuilder.constructor | source/runtime/ir/hir_builder.cpp:255 | a new builder has no functions and no current function |
| HirBuilder.HIRBuilder.AppendFunction | source/runtime/ir/hir_builder.cpp:257-261 | a new function with one block at start is appended to the list and becomes current |
| HirBuilder.HIRBuilder.SetLocation | source/runtime/ir/hir_builder.cpp:265 | SetLocation sets the location and nothing else |
| HirBuilder.HIRBuilder.If | source/runtime/ir/hir_builder.cpp:267-278 | If ends the current block with the terminal, returns the else and then blocks at their targets, adds the edges pre→then and pre→else, both conditional, and leaves then current; it fails exactly when a target is not a link |
| HirBuilder.HIRBuilder.Switch | source/runtime/ir/hir_builder.cpp:280-293 | Switch ends the current block and, per case in order, opens the case's block and adds a conditional edge to it; the result pairs each case value with its block; it fails exactly when a target is not a link |
| HirBuilder.HIRBuilder.LinkBlock | source/runtime/ir/hir_builder.cpp:295-302 | LinkBlock ends the current block, opens the target block, which becomes current, and adds one unconditional edge to it |
| HirBuilder.HIRBuilder.Return | source/runtime/ir/hir_builder.cpp:304-308 | Return ends the function, whose current block ends with PopRSBHint, and leaves no current function |
| CfgAnalysis.ChainFrom | source/runtime/ir/opts/cfg_analysis_pass.cpp:66-73 | the walk up the dominators from a block starts at that block and visits only blocks; from null it is empty |
| CfgAnalysis.FuelMonotone | source/runtime/ir/opts/cfg_analysis_pass.cpp:66-73 | a chain that reaches null is the same with more fuel |
| CfgAnalysis.ChainStep | source/runtime/ir/opts/cfg_analysis_pass.cpp:68-71 | the chain of a block is the block followed by the chain of its dominator |
| CfgAnalysis.ChainSuffix | source/runtime/ir/opts/cfg_analysis_pass.cpp:66-73 | every block on a chain has the rest of that chain as its own chain |
| CfgAnalysis.ChainPosition | source/runtime/ir/opts/cfg_analysis_pass.cpp:66-73 | a block at position i of a chain has a chain of the remaining length |
| CfgAnalysis.NearestCommon | source/runtime/ir/opts/cfg_analysis_pass.cpp:28-61 | the nearest common block is none exactly when the chains share no block, and otherwise the first block of one chain that lies on the other |
| CfgAnalysis.NearestCommonSkip | source/runtime/ir/opts/cfg_analysis_pass.cpp:52-58 | passing over a block that is not on the other chain keeps the nearest common block |
| CfgAnalysis.ChainLength | source/runtime/ir/opts/cfg_analysis_pass.cpp:66-73 | ChainLength returns the number of blocks on the chain, and returns exactly when the chain reaches null |
| CfgAnalysis.OnChainAt | source/runtime/ir/opts/cfg_analysis_pass.cpp:66-73 | a block on a chain sits at the position its own chain length dictates |
| CfgAnalysis.FirstCommonMeet | source/runtime/ir/opts/cfg_analysis_pass.cpp:28-61 | the first common block seen from either chain is the same block |
| CfgAnalysis.NearestCommonSymmetric | source/runtime/ir/opts/cfg_analysis_pass.cpp:17-21 | ForPair(a, b) and ForPair(b, a) find the same block |
| CfgAnalysis.NearestCommonFrom | source/runtime/ir/opts/cfg_analysis_pass.cpp:43-58 | skipping blocks of one chain that are not on the other keeps the nearest common block |
| CfgAnalysis.FarNotCommon | source/runtime/ir/opts/cfg_analysis_pass.cpp:43-50 | a block whose chain is longer than the other chain is not on it, so equalising the lengths skips no common block |
| CfgAnalysis.AlignedNotCommon | source/runtime/ir/opts/cfg_analysis_pass.cpp:52-58 | at equal remaining length, a block that differs from the other is not on the other chain |
| CfgAnalysis.ClimbTo | source/runtime/ir/opts/cfg_analysis_pass.cpp:43-50 | each equalising loop climbs from a chain position of one length to the position of the target length |
| CfgAnalysis.LockstepStep | source/runtime/ir/opts/cfg_analysis_pass.cpp:52-58 | while the two blocks differ, neither is null and both climb to the next position without losing the nearest common block |
| CfgAnalysis.LockstepMeet | source/runtime/ir/opts/cfg_analysis_pass.cpp:52-60 | where the lockstep climb stops, the block is the nearest common block, with its chain length |
| CfgAnalysis.Lockstep | source/runtime/ir/opts/cfg_analysis_pass.cpp:52-60 | the lockstep loop ends at the nearest common block and its chain length, or fails exactly when the chains share none |
| CfgAnalysis.CommonDominator.constructor | source/runtime/ir/opts/cfg_analysis_pass.cpp:24-25 | the finder starts with the block and the length of its chain |
| CfgAnalysis.CommonDominator.Update | source/runtime/ir/opts/cfg_analysis_pass.cpp:28-61 | Update adopts the block when there is no dominator yet; otherwise the dominator becomes the nearest common block of both chains, and the ASSERT fails exactly when they share none |
| CfgAnalysis.ForPair | source/runtime/ir/opts/cfg_analysis_pass.cpp:17-21 | ForPair returns the nearest block on both dominator chains, the same in either order, or none when they share none |
| CfgAnalysis.ChainFromLength | source/runtime/ir/opts/cfg_analysis_pass.cpp:66-73 | each block of a chain takes one step of the walk |
| CfgAnalysis.ChainFromSuffix | source/runtime/ir/opts/cfg_analysis_pass.cpp:66-73 | every block on a chain has the rest of the chain as its own chain with the steps left |
| CfgAnalysis.ChainFromDistinct | source/runtime/ir/opts/cfg_analysis_pass.cpp:66-73 | a chain that reaches null visits no block twice |
| CfgAnalysis.FuelShrink | source/runtime/ir/opts/cfg_analysis_pass.cpp:66-73 | a chain found with some fuel is found with exactly its length |
| CfgAnalysis.ChainOfSome | source/runtime/ir/opts/cfg_analysis_pass.cpp:66-73 | a chain found with any fuel is the chain of the block |
| CfgAnalysis.RankedChainFrom | source/runtime/ir/opts/cfg_analysis_pass.cpp:66-73 | when dominators decrease a rank, the walk from a block reaches null |
| CfgAnalysis.RankedAcyclic | source/runtime/ir/opts/cfg_analysis_pass.cpp:66-73 | dominators that decrease a rank form no cycle, so ChainLength always returns |
| CfgAnalysis.RankOnChain | source/runtime/ir/opts/cfg_analysis_pass.cpp:66-73 | ranks do not grow along a chain |
| CfgAnalysis.ReachedChainEnds | source/runtime/ir/opts/cfg_analysis_pass.cpp:101-114 | in a rooted dominator tree, the chain of a block with a dominator runs through such blocks to the entry |
| CfgAnalysis.DominatorUpdate | source/runtime/ir/opts/cfg_analysis_pass.cpp:104-106 | the new dominator is the block while the successor has none, else it exists exactly when both chains share a block and then lies on both |
| CfgAnalysis.UpdateDominatorOfSuccessor | source/runtime/ir/opts/cfg_analysis_pass.cpp:101-114 | the successor's dominator is set to the new dominator, and the result says whether it changed |
| CfgAnalysis.FirstUpdateKeepsRooted | source/runtime/ir/opts/cfg_analysis_pass.cpp:104-111 | the first dominator given to a block other than the entry keeps the tree rooted at the entry |
| CfgAnalysis.LaterUpdateKeepsRooted | source/runtime/ir/opts/cfg_analysis_pass.cpp:104-111 | moving a dominator up to the common dominator keeps the tree rooted |
| CfgAnalysis.EntryBackEdgeMakesCycle | source/runtime/ir/opts/cfg_analysis_pass.cpp:101-114 | as written, an edge from block 1 back into the entry gives the entry, whose dominator is null, block 1 as dominator, and the chain of the entry then never reaches null |
| CfgAnalysis.LeftStep | source/runtime/ir/opts/cfg_analysis_pass.cpp:188 | visiting one more successor uses up one of the successors left |
| CfgAnalysis.StepShaped | source/runtime/ir/opts/cfg_analysis_pass.cpp:182-199 | a turn of the walk keeps its state well formed and uses up a successor or pops the worklist |
| CfgAnalysis.StepCounted | source/runtime/ir/opts/cfg_analysis_pass.cpp:182-199 | a turn keeps the RPO list distinct and holding exactly the blocks whose visit count has reached their threshold |
| CfgAnalysis.StepSound | source/runtime/ir/opts/cfg_analysis_pass.cpp:182-199 | with edges into the entry passed over, a turn never fails and keeps the dominator tree rooted |
| CfgAnalysis.Step | source/runtime/ir/opts/cfg_analysis_pass.cpp:183-198 | the loop body computes one turn of the walk as specified |
| CfgAnalysis.StartSound | source/runtime/ir/opts/cfg_analysis_pass.cpp:164-181 | the walk starts well formed and counted, and rooted when no block has a dominator |
| CfgAnalysis.DominanceWalk | source/runtime/ir/opts/cfg_analysis_pass.cpp:164-200 | the walk ends with an empty worklist; corrected, it always ends, the dominators are acyclic with a null entry dominator, and every block appended hangs in the tree |
| CfgAnalysis.CountFalseSet | source/runtime/ir/opts/cfg_analysis_pass.cpp:155-158 | marking an unvisited block visited leaves one fewer unvisited |
| CfgAnalysis.PathReaches | source/runtime/ir/opts/cfg_analysis_pass.cpp:143-161 | the worklist is a path, so each of its blocks reaches the top |
| CfgAnalysis.BackEdgeCloses | source/runtime/ir/opts/cfg_analysis_pass.cpp:152-154 | a successor still on the worklist reaches the current block, so the edge closes a cycle |
| CfgAnalysis.BackOkAdd | source/runtime/ir/opts/cfg_analysis_pass.cpp:152-154 | recording such an edge as a back edge keeps every back edge one that closes a cycle |
| CfgAnalysis.SeenKeepsExplored | source/runtime/ir/opts/cfg_analysis_pass.cpp:149-159 | passing over an already visited successor keeps the search explored |
| CfgAnalysis.PopKeepsWorkPath | source/runtime/ir/opts/cfg_analysis_pass.cpp:146-148 | popping a finished block keeps the worklist a path and visiting its set of blocks |
| CfgAnalysis.PopKeepsExplored | source/runtime/ir/opts/cfg_analysis_pass.cpp:146-148 | popping a finished block keeps the search explored |
| CfgAnalysis.PushKeepsWorkPath | source/runtime/ir/opts/cfg_analysis_pass.cpp:155-158 | pushing an unvisited successor keeps the worklist a path |
| CfgAnalysis.PushKeepsExplored | source/runtime/ir/opts/cfg_analysis_pass.cpp:155-158 | pushing an unvisited successor keeps the search explored |
| CfgAnalysis.DfsStepShaped | source/runtime/ir/opts/cfg_analysis_pass.cpp:143-161 | a turn of the search keeps its state well formed |
| CfgAnalysis.DfsStepKeeps | source/runtime/ir/opts/cfg_analysis_pass.cpp:143-161 | a turn keeps the search's invariant |
| CfgAnalysis.PopKeeps | source/runtime/ir/opts/cfg_analysis_pass.cpp:146-148 | the pop case keeps the invariant |
| CfgAnalysis.VisitKeeps | source/runtime/ir/opts/cfg_analysis_pass.cpp:149-160 | the successor case keeps the invariant |
| CfgAnalysis.BackKeeps | source/runtime/ir/opts/cfg_analysis_pass.cpp:152-154 | the back-edge case keeps the invariant |
| CfgAnalysis.PushKeeps | source/runtime/ir/opts/cfg_analysis_pass.cpp:155-158 | the push case keeps the invariant |
| CfgAnalysis.SeenKeeps | source/runtime/ir/opts/cfg_analysis_pass.cpp:149-159 | the already-visited case keeps the invariant |
| CfgAnalysis.BackEdgeKeeps | source/runtime/ir/opts/cfg_analysis_pass.cpp:152-154 | the back-edge case keeps the back edges closing cycles and the search explored |
| CfgAnalysis.DfsStep | source/runtime/ir/opts/cfg_analysis_pass.cpp:144-160 | the loop body computes one turn of the search as specified |
| CfgAnalysis.DfsStartKeeps | source/runtime/ir/opts/cfg_analysis_pass.cpp:139-141 | the search starts with the entry marked and on the worklist, meeting the invariant |
| CfgAnalysis.VisitedReachable | source/runtime/ir/opts/cfg_analysis_pass.cpp:143-161 | once the worklist is empty, every block on a path from the entry is visited |
| CfgAnalysis.FindBackEdgesOf | source/runtime/ir/opts/cfg_analysis_pass.cpp:126-162 | the search visits exactly the blocks reachable from the entry, and each back edge c -> s is an edge whose target reaches c |
| CfgAnalysis.Thresholds | source/runtime/ir/opts/cfg_analysis_pass.cpp:193-194 | a block is scheduled once its visits reach its predecessors less its back edges |
| CfgAnalysis.MarkDominates | source/runtime/ir/opts/cfg_analysis_pass.cpp:116-124 | an edge has DOMINATES afterwards exactly when it had it or it is the sole incoming edge of its block; ends are kept |
| CfgAnalysis.MarkDominatesIdempotent | source/runtime/ir/opts/cfg_analysis_pass.cpp:116-124 | marking twice is marking once |
| CfgAnalysis.FindDominateEdges | source/runtime/ir/opts/cfg_analysis_pass.cpp:116-124 | the loop marks exactly the sole incoming edges DOMINATES and changes nothing else |
| CfgAnalysis.FindBackEdges | source/runtime/ir/opts/cfg_analysis_pass.cpp:126-162 | FindBackEdges visits exactly the blocks reachable from the entry and adds to each block the sources of the back edges into it, all of which close cycles; edges and values are kept |
| CfgAnalysis.ComputeDominanceInformationAsWritten | source/runtime/ir/opts/cfg_analysis_pass.cpp:164-200 | as written the walk never appends the entry to the RPO list when the entry has no forward predecessors; the list holds distinct blocks with positive thresholds |
| CfgAnalysis.ComputeDominanceInformation | source/runtime/ir/opts/cfg_analysis_pass.cpp:164-200 | corrected, the entry heads the appended RPO list; on a function without dominators the walk returns, the dominators form a tree rooted at the entry, and every block appended hangs in it |
| CfgAnalysis.DominanceInto | source/runtime/ir/opts/cfg_analysis_pass.cpp:164-200 | the walk writes back the dominators and the appended RPO list, keeping edges, values and back edges |
| CfgAnalysis.Run | source/runtime/ir/opts/cfg_analysis_pass.cpp:85-99 | with the corrected walk, Run marks the DOMINATES edges, adds back edges and then computes dominators and RPO: the entry heads the list and the dominators form a tree rooted at the entry |
| CfgAnalysis.RunReady | source/runtime/ir/opts/cfg_analysis_pass.cpp:85-99 | Run on a ready function leaves it ready and run |
| CfgAnalysis.RunAll | source/runtime/ir/opts/cfg_analysis_pass.cpp:79-83 | the corrected pass runs on every function of the builder |
| CfgAnalysis.RunAsWritten | source/runtime/ir/opts/cfg_analysis_pass.cpp:85-99 | as written, Run marks the DOMINATES edges and adds back edges, then appends distinct blocks with positive thresholds to the RPO list, so an entry with no forward predecessor is never in it |
| LocalElimination.EmptyTable | source/runtime/ir/opts/local_elimination_pass.cpp:17 | the table has MaxLocalId() + 1 entries, all empty |
| LocalElimination.RedirectedIdempotent | source/runtime/ir/opts/local_elimination_pass.cpp:27-31 | redirecting a slot to the same value twice is redirecting it once |
| LocalElimination.RedirectUses | source/runtime/ir/opts/local_elimination_pass.cpp:26-32 | redirecting the uses keeps the number of instructions |
| LocalElimination.RedirectUsesSlots | source/runtime/ir/opts/local_elimination_pass.cpp:26-32 | a slot named by a use is redirected to the stored value if it holds a Value or a Lambda, and every other slot is unchanged |
| LocalElimination.Without | source/runtime/ir/opts/local_elimination_pass.cpp:33 | DestroyHIRValue leaves one value fewer |
| LocalElimination.Stored | source/runtime/ir/opts/local_elimination_pass.cpp:40-41 | a StoreLocal records an entry exactly when the stored value has an HIR value |
| LocalElimination.Visit | source/runtime/ir/opts/local_elimination_pass.cpp:20-46 | visiting an instruction keeps the number of instructions and table entries |
| LocalElimination.VisitStore | source/runtime/ir/opts/local_elimination_pass.cpp:38-43 | a StoreLocal records the stored value's HIR value for its local and changes nothing else |
| LocalElimination.VisitLoadForwards | source/runtime/ir/opts/local_elimination_pass.cpp:21-37 | a LoadLocal whose local holds a value of the same block has each use redirected to the stored value, and its HIR value is removed from the map |
| LocalElimination.VisitLoadUntouched | source/runtime/ir/opts/local_elimination_pass.cpp:23-24 | a LoadLocal of a local with no value, or with a value of another block, changes nothing |
| LocalElimination.VisitOther | source/runtime/ir/opts/local_elimination_pass.cpp:44-45 | every other opcode changes nothing |
| LocalElimination.StoreLoadRedirect | source/runtime/ir/opts/local_elimination_pass.cpp:26-32 | in the example block, redirecting the load's one use moves it to the stored value |
| LocalElimination.StoreLoadStore | source/runtime/ir/opts/local_elimination_pass.cpp:38-43 | in the example block, the StoreLocal records the stored value |
| LocalElimination.StoreLoadLoad | source/runtime/ir/opts/local_elimination_pass.cpp:21-37 | in the example block, the LoadLocal is forwarded |
| LocalElimination.VisitLoadStep | source/runtime/ir/opts/local_elimination_pass.cpp:23-34 | the load branch is the redirection of the load's uses followed by the removal of its HIR value |
| LocalElimination.StoreThenLoadForwards | source/runtime/ir/opts/local_elimination_pass.cpp:15-49 | over a block storing x to a local, loading it as y and using y, the user ends up using x, y has no use and no HIR value, and x gains the use |
| LocalElimination.WalkBlockStep | source/runtime/ir/opts/local_elimination_pass.cpp:19-47 | one step of the walk over a block visits its first instruction and then the rest |
| LocalElimination.WalkBlock | source/runtime/ir/opts/local_elimination_pass.cpp:19-47 | walking a block keeps the number of instructions and table entries |
| LocalElimination.WalkBlocks | source/runtime/ir/opts/local_elimination_pass.cpp:18-48 | walking the blocks, with the table carried over, keeps the number of instructions and table entries |
| LocalElimination.Pass | source/runtime/ir/opts/local_elimination_pass.cpp:15-49 | the pass on a function keeps the number of instructions |
| LocalElimination.WalkBlockKeeps | source/runtime/ir/opts/local_elimination_pass.cpp:19-47 | the pass changes no opcode, never adds an HIR value and keeps one HIR value per definition |
| LocalElimination.VisitKeeps | source/runtime/ir/opts/local_elimination_pass.cpp:20-46 | visiting an instruction changes no opcode, never adds an HIR value and keeps one HIR value per definition |
| LocalElimination.Redirect | source/runtime/ir/opts/local_elimination_pass.cpp:26-32 | the use loop performs the redirection as specified |
| LocalElimination.VisitInst | source/runtime/ir/opts/local_elimination_pass.cpp:20-46 | one instruction of the walk changes the arena, the value map and the table as Visit says, and nothing else of the function |
| LocalElimination.VisitBlock | source/runtime/ir/opts/local_elimination_pass.cpp:19-47 | the walk over one block's instructions changes the arena, the value map and the table as WalkBlock says |
| LocalElimination.RunFunction | source/runtime/ir/opts/local_elimination_pass.cpp:15-49 | the pass on a function starts with the empty table and changes the arena and value map as Pass says, and nothing else |
| LocalElimination.PassAll | source/runtime/ir/opts/local_elimination_pass.cpp:9-13 | the pass on each function keeps the number of instructions and gives one value map per function |
| LocalElimination.GlueStep | source/runtime/ir/opts/local_elimination_pass.cpp:10-12 | running the pass on one more function extends the results in function order |
| LocalElimination.Run | source/runtime/ir/opts/local_elimination_pass.cpp:9-13 | Run on the builder succeeds exactly when the pass on every function does, and leaves the arena and each function's value map as PassAll says |
| UniformElimination.EmptyBuffer | source/runtime/ir/opts/uniform_elimination_pass.cpp:19 | the byte table has uniform_size entries, each empty under the intended Null and none empty under Null as written |
| UniformElimination.OffsetIn | source/runtime/ir/opts/uniform_elimination_pass.cpp:42 | the offset inside the register fits in a byte and is the uniform's offset minus the register's when the uniform lies in the register |
| UniformElimination.HostLoad | source/runtime/ir/opts/uniform_elimination_pass.cpp:40-47 | the GetHostFPR/GetHostGPR emission takes only immediates (register index and offset) |
| UniformElimination.HostStore | source/runtime/ir/opts/uniform_elimination_pass.cpp:96-103 | the SetHostFPR/SetHostGPR emission takes the stored value first |
| UniformElimination.Forward | source/runtime/ir/opts/uniform_elimination_pass.cpp:69-76 | the BitCast/BitExtract emission takes the forwarded value first |
| UniformElimination.HostEmissions | source/runtime/ir/opts/uniform_elimination_pass.cpp:40-47 | a float type picks the FPR opcode and register, any other the GPR one; the arguments are the register index and the byte offset inside the register, the store's preceded by the value; the load returns the uniform's type |
| UniformElimination.ForwardEmission | source/runtime/ir/opts/uniform_elimination_pass.cpp:69-76 | a value found at byte 0 is forwarded by BitCast, otherwise by BitExtract of bits 8*offset, width 8*size; the result has the uniform's type |
| UniformElimination.Emit | source/runtime/ir/opts/uniform_elimination_pass.cpp:43-46 | rewriting an instruction in place keeps the arena's length and sets the new opcode and return type |
| UniformElimination.EmitPlaces | source/runtime/ir/opts/uniform_elimination_pass.cpp:43-46 | the new arguments land in slots 0, 1, 2 in order |
| UniformElimination.EmitSucceeds | source/runtime/ir/opts/uniform_elimination_pass.cpp:43-46 | the rewrite cannot fail when the old arguments can be released and the new ones are defined values or immediates |
| UniformElimination.Rewrite | source/runtime/ir/opts/uniform_elimination_pass.cpp:43-46 | a rewrite keeps the arena's length and leaves the byte table alone |
| UniformElimination.RewritePlain | source/runtime/ir/opts/uniform_elimination_pass.cpp:43-46 | a rewrite with plain defined arguments succeeds and emits exactly that instruction |
| UniformElimination.RewriteImms | source/runtime/ir/opts/uniform_elimination_pass.cpp:43-46 | a GetHost rewrite succeeds and emits exactly that instruction |
| UniformElimination.RewriteWithValue | source/runtime/ir/opts/uniform_elimination_pass.cpp:99-103 | a SetHost or forwarding rewrite with a live value succeeds and emits exactly that instruction |
| UniformElimination.Written | source/runtime/ir/opts/uniform_elimination_pass.cpp:106-108 | storing into the byte table keeps its length |
| UniformElimination.ScanAsWrittenNeverDefined | source/runtime/ir/opts/uniform_elimination_pass.cpp:13-15 | with Null inverted the load's byte scan never yields a defined value, so no load is ever forwarded |
| UniformElimination.ScanSound | source/runtime/ir/opts/uniform_elimination_pass.cpp:53-67 | whatever the intended scan yields is held by every loaded byte, at consecutive offsets of one value |
| UniformElimination.ScanComplete | source/runtime/ir/opts/uniform_elimination_pass.cpp:53-67 | when every loaded byte comes from one value at consecutive offsets the intended scan yields that value and its first offset |
| UniformElimination.ScanIff | source/runtime/ir/opts/uniform_elimination_pass.cpp:53-67 | the intended scan forwards exactly when the loaded bytes are consecutive bytes of one stored value |
| UniformElimination.StoreThenLoadInside | source/runtime/ir/opts/uniform_elimination_pass.cpp:53-108 | a load lying inside an earlier store is forwarded from the stored value at the right byte offset |
| UniformElimination.Visit | source/runtime/ir/opts/uniform_elimination_pass.cpp:23-113 | handling one instruction keeps the arena's and the byte table's lengths |
| UniformElimination.VisitLoad | source/runtime/ir/opts/uniform_elimination_pass.cpp:24-78 | a LoadUniform never changes the byte table |
| UniformElimination.VisitStore | source/runtime/ir/opts/uniform_elimination_pass.cpp:79-110 | a StoreUniform keeps the arena's and the byte table's lengths |
| UniformElimination.VisitCrossPanics | source/runtime/ir/opts/uniform_elimination_pass.cpp:32-39 | a load or store in a register's range that runs past the register's end panics |
| UniformElimination.VisitHostIsRewrite | source/runtime/ir/opts/uniform_elimination_pass.cpp:32-103 | a load or store inside a register becomes the GetHost or SetHost emission of that register |
| UniformElimination.VisitHostLoad | source/runtime/ir/opts/uniform_elimination_pass.cpp:32-49 | a load inside a register is rewritten to GetHost and the byte table is untouched |
| UniformElimination.VisitHostStore | source/runtime/ir/opts/uniform_elimination_pass.cpp:88-105 | a store inside a register is rewritten to SetHost and the byte table is untouched |
| UniformElimination.VisitStoreBytes | source/runtime/ir/opts/uniform_elimination_pass.cpp:106-108 | a store outside the registers records each of its bytes as (value, byte index) and changes nothing else; it fails exactly when it runs past the table |
| UniformElimination.VisitLoadAsWrittenKeeps | source/runtime/ir/opts/uniform_elimination_pass.cpp:13-15 | with Null inverted a load outside the registers is left as it is |
| UniformElimination.VisitLoadIsRewrite | source/runtime/ir/opts/uniform_elimination_pass.cpp:51-76 | a load whose intended scan finds a value becomes the forwarding emission of that value |
| UniformElimination.LoadForwardStep | source/runtime/ir/opts/uniform_elimination_pass.cpp:51-76 | a load whose intended scan finds a live value is rewritten to forward it and the byte table is untouched |
| UniformElimination.VisitLoadForwards | source/runtime/ir/opts/uniform_elimination_pass.cpp:51-76 | a load whose bytes all come from one live stored value is rewritten to BitCast/BitExtract of that value |
| UniformElimination.VisitLoadOnlyForwards | source/runtime/ir/opts/uniform_elimination_pass.cpp:51-76 | a load outside the registers changes only when its bytes all come from one stored value |
| UniformElimination.VisitOther | source/runtime/ir/opts/uniform_elimination_pass.cpp:111-112 | every other instruction is left as it is |
| UniformElimination.WalkBlock | source/runtime/ir/opts/uniform_elimination_pass.cpp:22-114 | walking the block keeps the arena's and the byte table's lengths |
| UniformElimination.Pass | source/runtime/ir/opts/uniform_elimination_pass.cpp:18-115 | the pass keeps the number of instructions |
| UniformElimination.WalkAsWrittenKeepsOps | source/runtime/ir/opts/uniform_elimination_pass.cpp:13-15 | with Null inverted and no uniform registers the pass changes no opcode |
| UniformElimination.StoreBytes | source/runtime/ir/opts/uniform_elimination_pass.cpp:106-108 | the byte loop leaves the table equal to the specification of the store |
| UniformElimination.ScanBytes | source/runtime/ir/opts/uniform_elimination_pass.cpp:53-67 | the byte loop returns what the specification scan returns |
| UniformElimination.EmitInst | source/runtime/ir/opts/uniform_elimination_pass.cpp:43-46 | the in-place rewrite succeeds exactly when its specification does and leaves the arena it describes |
| UniformElimination.VisitInst | source/runtime/ir/opts/uniform_elimination_pass.cpp:23-113 | handling one instruction succeeds exactly when Visit does and leaves the arena and byte table Visit describes |
| UniformElimination.Run | source/runtime/ir/opts/uniform_elimination_pass.cpp:18-115 | the pass succeeds exactly when Pass does and leaves the arena Pass describes |
| UniformElimination.ScanNullFixedOnlyNeverDefined | source/runtime/ir/opts/uniform_elimination_pass.cpp:53-67 | with Null corrected but byte 0 still compared with the empty value_load, the scan never yields a defined value |
| UniformElimination.OverlappingStoresSwapBytes | source/runtime/ir/opts/uniform_elimination_pass.cpp:106-108 | two overlapping stores of one value, 4 bytes at o and at o + 2, leave bytes 1 and 0 of the value at o + 1 and o + 2 |
| UniformElimination.ScanUnorderedForwardsSwappedBytes | source/runtime/ir/opts/uniform_elimination_pass.cpp:53-76 | on bytes holding bytes 1 and 0 of a value, a scan without the consecutive-offset check forwards that value from byte 1, which the bytes do not hold; the intended scan forwards nothing |
| DeadCode.DestroyArgsFrom | source/runtime/ir/instr.cpp:274-278 | releasing the argument slots from i on voids exactly those slots and keeps every other instruction's arguments, opcodes and return types |
| DeadCode.DestroyArgs | source/runtime/ir/instr.cpp:274-278 | releasing all arguments leaves the instruction's four slots void and every other instruction's arguments as they were |
| DeadCode.DestroyArgsFromVoid | source/runtime/ir/instr.cpp:274-278 | releasing slots that are already void changes nothing |
| DeadCode.SubseqMember | source/runtime/ir/opts/deadcode_elimination_pass.cpp:11-19 | a member of a sub-list is a member of the list |
| DeadCode.DceFrom | source/runtime/ir/opts/deadcode_elimination_pass.cpp:9-20 | the kept list is a sub-list of the block's list, the arena keeps its length, and no opcode or return type changes |
| DeadCode.DceKeepsVoid | source/runtime/ir/instr.cpp:213-219 | an instruction whose opcode returns Void is always kept |
| DeadCode.DceArguments | source/runtime/ir/opts/deadcode_elimination_pass.cpp:13-15 | a kept instruction keeps its arguments and a deleted one has released all of them |
| DeadCode.KeptUntouched | source/runtime/ir/opts/deadcode_elimination_pass.cpp:11-19 | an instruction outside the block keeps its arguments |
| DeadCode.DceIsSinglePass | source/runtime/ir/opts/deadcode_elimination_pass.cpp:11-19 | on a two-instruction block where the second uses the first, the first is kept and then left without uses: one walk does not reach a fixed point |
| DeadCode.DestroyAll | source/runtime/ir/instr.cpp:274-278 | the in-place release succeeds exactly when its specification does and leaves the arena it describes |
| DeadCode.KeepStep | source/runtime/ir/opts/deadcode_elimination_pass.cpp:16-17 | an instruction with side effects is kept and the walk goes on with the rest of the list |
| DeadCode.DropStep | source/runtime/ir/opts/deadcode_elimination_pass.cpp:13-15 | an instruction without side effects is deleted, its arguments released first, and the walk goes on with the rest |
| DeadCode.Drop | source/runtime/ir/opts/deadcode_elimination_pass.cpp:13-15 | deleting one instruction keeps the walk on course to its specification result, or shows that the specification fails |
| DeadCode.Sweep | source/runtime/ir/opts/deadcode_elimination_pass.cpp:11-19 | the loop succeeds exactly when DceFrom does and returns its kept list and arena |
| DeadCode.Run | source/runtime/ir/opts/deadcode_elimination_pass.cpp:9-20 | the pass succeeds exactly when DceFrom does, leaves the block holding the kept list and the arena DceFrom describes, and keeps the terminal |
| LiveIntervals.Pin | source/runtime/ir/opts/register_alloc_pass.cpp:111-118 | mapping a value to a host register changes only that value's entry, to the FPR or GPR of that index |
| LiveIntervals.Refer | source/runtime/ir/opts/register_alloc_pass.cpp:119-121 | mapping a bit cast as a reference changes only the cast's entry, to a reference to its source |
| LiveIntervals.Credit | source/runtime/ir/opts/register_alloc_pass.cpp:154-164 | crediting an instruction's values raises the last use of exactly the ids they name (a bit cast's source instead of the cast) to at least the instruction's id and leaves every other last use alone |
| LiveIntervals.Zeros | source/runtime/ir/opts/register_alloc_pass.cpp:107-109 | the last-use table starts with one zero per instruction |
| LiveIntervals.SetHost | source/runtime/ir/opts/register_alloc_pass.cpp:122-152 | a SetHostReg changes no last use and keeps the allocation result's length |
| LiveIntervals.ScanOne | source/runtime/ir/opts/register_alloc_pass.cpp:110-166 | one instruction of the first loop keeps both tables' lengths |
| LiveIntervals.ScanBlock | source/runtime/ir/opts/register_alloc_pass.cpp:110-166 | the first loop keeps both tables' lengths |
| LiveIntervals.ScanOneUseEnd | source/runtime/ir/opts/register_alloc_pass.cpp:153-165 | an instruction that is neither a host-register access nor a bit cast raises the last use of exactly the values it reads, and nothing else |
| LiveIntervals.ScanLastUses | source/runtime/ir/opts/register_alloc_pass.cpp:110-166 | after the first loop every entry of the last-use table is at least the id of every plain instruction reading that value (directly or through a bit cast) and is 0 or the id of one of them |
| LiveIntervals.ScanOneCountDown | source/runtime/ir/opts/register_alloc_pass.cpp:137-150 | each SetHostReg of a value with several uses counts its remaining uses down by one |
| LiveIntervals.SetUsesCountDown | source/runtime/ir/opts/register_alloc_pass.cpp:122-152 | after the first loop the stored count of a value is its use count less the SetHostReg instructions seen for it |
| LiveIntervals.SetHostPinsAt | source/runtime/ir/opts/register_alloc_pass.cpp:122-152 | a SetHostReg pins its value to the host register exactly when the value has one use or this is the SetHostReg that brings the count to zero |
| LiveIntervals.Intervals | source/runtime/ir/opts/register_alloc_pass.cpp:167-176 | the second loop yields exactly the intervals of the instructions with a value (and, in block mode, a recorded last use), from id to last use |
| LiveIntervals.CollectBlock | source/runtime/ir/opts/register_alloc_pass.cpp:104-177 | an empty block fails its ASSERT; otherwise the allocation result keeps its length and every interval names an instruction it has an entry for |
| LiveIntervals.BlockIntervalsSpan | source/runtime/ir/opts/register_alloc_pass.cpp:167-176 | each block interval starts at its value's id and ends at the last plain instruction reading the value |
| LiveIntervals.UsedValueCollected | source/runtime/ir/opts/register_alloc_pass.cpp:167-176 | every value read by a plain instruction of non-zero id gets its interval |
| LiveIntervals.CreditAll | source/runtime/ir/opts/register_alloc_pass.cpp:368-374 | the virtual allocator's first loop keeps the last-use table's length |
| LiveIntervals.CreditAllLastUses | source/runtime/ir/opts/register_alloc_pass.cpp:368-374 | after the virtual allocator's first loop every last use is at least the id of every instruction reading the value directly and is 0 or the id of one of them |
| LiveIntervals.VIntervalsSpan | source/runtime/ir/opts/register_alloc_pass.cpp:375-381 | each virtual interval starts at its value's id and ends at its last reader, or at 0 when there is none |
| LiveIntervals.VEveryValueCollected | source/runtime/ir/opts/register_alloc_pass.cpp:375-381 | every instruction with a value gets a virtual interval, used or not |
| LiveIntervals.UsesEnd | source/runtime/ir/opts/register_alloc_pass.cpp:93-96 | the end of a function-mode interval is the largest of the order id and the ids of the value's users, and is one of them |
| LiveIntervals.CollectValue | source/runtime/ir/opts/register_alloc_pass.cpp:76-100 | one value keeps the allocation result's length |
| LiveIntervals.CollectValues | source/runtime/ir/opts/register_alloc_pass.cpp:74-102 | the function-mode loop keeps the allocation result's length and every interval names an instruction it has an entry for |
| LiveIntervals.CollectValueStep | source/runtime/ir/opts/register_alloc_pass.cpp:76-100 | a value adds an interval exactly when it is neither a host-register read nor a bit cast, and that interval runs from its order id (a pseudo operation's argument's id) to its last user |
| LiveIntervals.FunctionIntervals | source/runtime/ir/opts/register_alloc_pass.cpp:74-102 | the function-mode intervals are exactly those of the values that are neither host-register reads nor bit casts |
| LinearScan.LessIsStrictWeakOrder | source/runtime/ir/opts/register_alloc_pass.cpp:14-20 | the interval order is irreflexive, asymmetric and transitive, and two intervals tie exactly when start and end agree |
| LinearScan.Insert | source/runtime/ir/opts/register_alloc_pass.cpp:48 | inserting into a sorted list keeps it sorted and adds exactly the one interval |
| LinearScan.SortIntervals | source/runtime/ir/opts/register_alloc_pass.cpp:48 | the sort yields a sorted permutation of the intervals |
| LinearScan.FirstClear | source/runtime/ir/opts/register_alloc_pass.cpp:211-225 | the first clear entry of a mask: clear, every earlier one set; -1 exactly when every entry is set |
| LinearScan.FirstFreePair | source/runtime/ir/opts/register_alloc_pass.cpp:232-237 | the first even slot whose pair is free, every earlier even pair taken; -1 exactly when none is free |
| LinearScan.Grow | source/runtime/ir/opts/register_alloc_pass.cpp:201-204 | growing the spill stack appends n free slots and keeps the old ones |
| LinearScan.MarkPair | source/runtime/ir/opts/register_alloc_pass.cpp:243 | a vector spill marks its slot and, when corrected, the next one too; nothing else changes |
| LinearScan.SpillAt | source/runtime/ir/opts/register_alloc_pass.cpp:227-258 | the chosen spill slot (and, for a vector, the next) lies inside the grown stack and is marked; the stack grows by at most two |
| LinearScan.SpillFresh | source/runtime/ir/opts/register_alloc_pass.cpp:227-258 | corrected: a spill takes the first free slot or free even pair, or the first slot past the end, marks exactly its slots and takes none that was already taken |
| LinearScan.ScalarSpillAsWrittenReusesSlot | source/runtime/ir/opts/register_alloc_pass.cpp:250-256 | as written, a scalar spill into a full stack gets the cursor's slot, which is already taken |
| LinearScan.VectorSpillAsWrittenLeavesUpperSlot | source/runtime/ir/opts/register_alloc_pass.cpp:243 | as written, a vector spill leaves the upper slot of its pair free |
| LinearScan.ScalarSpillsAsWrittenCollide | source/runtime/ir/opts/register_alloc_pass.cpp:250-256 | as written, the first two scalar spills into an empty stack both get slot 0 |
| LinearScan.VectorThenScalarAsWrittenOverlap | source/runtime/ir/opts/register_alloc_pass.cpp:238-256 | as written, a scalar spill after a vector spill gets the vector's upper slot |
| LinearScan.Free | source/runtime/ir/opts/register_alloc_pass.cpp:260-273 | freeing clears exactly one entry and fails (the ASSERT) when that entry was not set |
| LinearScan.Release | source/runtime/ir/opts/register_alloc_pass.cpp:182-193 | releasing an expired interval that holds a GPR or FPR frees exactly that register, fails exactly when it was already free, and keeps every mask's size |
| LinearScan.Unexpired | source/runtime/ir/opts/register_alloc_pass.cpp:179-198 | the active list after expiry holds exactly the intervals ending at or after the current start |
| LinearScan.Expired | source/runtime/ir/opts/register_alloc_pass.cpp:179-198 | the expired intervals are exactly those ending before the current start |
| LinearScan.Expire | source/runtime/ir/opts/register_alloc_pass.cpp:179-199 | expiry leaves exactly the unexpired intervals active and keeps the masks' sizes; the spill slots change only when a spilled interval expires |
| LinearScan.ValidAfterRelease | source/runtime/ir/opts/register_alloc_pass.cpp:182-193 | releasing an interval that holds its register succeeds and keeps the invariant of the others |
| LinearScan.ExpireKeepsValid | source/runtime/ir/opts/register_alloc_pass.cpp:179-199 | on a valid active list expiry succeeds, keeps the invariant (one interval per instruction, each holding a taken register of its class, no two sharing one) and keeps the spill slots |
| LinearScan.ExpireClears | source/runtime/ir/opts/register_alloc_pass.cpp:179-199 | expiry of register-holding intervals clears exactly the registers of the expired ones |
| LinearScan.Place | source/runtime/ir/opts/register_alloc_pass.cpp:57 | MapRegister records the kind and index for one id and changes no other id |
| LinearScan.Dirty | source/runtime/ir/opts/register_alloc_pass.cpp:69 | SetActiveRegs records the live masks for one id: as written with the GPR and FPR masks swapped, corrected in their places |
| LinearScan.Step | source/runtime/ir/opts/register_alloc_pass.cpp:51-70 | one allocation step keeps the allocation result's length |
| LinearScan.Run | source/runtime/ir/opts/register_alloc_pass.cpp:51-70 | the allocation loop keeps the allocation result's length |
| LinearScan.StepAllocatesResult | source/runtime/ir/opts/register_alloc_pass.cpp:52-57 | with a free register of the interval's class, the step expires, takes the first free register, maps the interval to it, records the masks and makes the interval active |
| LinearScan.StepAllocates | source/runtime/ir/opts/register_alloc_pass.cpp:54-64 | a step with a free register succeeds and keeps the invariant |
| LinearScan.StepSpills | source/runtime/ir/opts/register_alloc_pass.cpp:58-67 | with no free register the step spills: the slot and the spill stack are SpillAt's |
| LinearScan.StepKeepsValid | source/runtime/ir/opts/register_alloc_pass.cpp:51-70 | a step succeeds, keeps the invariant, changes no other interval's entry, gives this one a register of its class exactly when one is free and a SpillAt slot otherwise |
| LinearScan.RunSeparates | source/runtime/ir/opts/register_alloc_pass.cpp:39-71 | over sorted intervals the loop succeeds, and two intervals of the same class with registers, the first still live at the second's start, hold different registers |
| LinearScan.RunSpillsApart | source/runtime/ir/opts/register_alloc_pass.cpp:51-70 | corrected: every spilled interval occupies its slots and no two spilled intervals' slots overlap |
| LinearScan.RunAsWrittenSharesSlot | source/runtime/ir/opts/register_alloc_pass.cpp:250-256 | as written, with no GPRs two overlapping scalar intervals are both spilled to slot 0 |
| LinearScan.StepAsWrittenNoGprs | source/runtime/ir/opts/register_alloc_pass.cpp:250-256 | as written, a scalar spill into a full stack of at most one slot gets slot 0 and grows the stack by one |
| LinearScan.DirtyAsWrittenSwapsMasks | source/runtime/ir/opts/register_alloc_pass.cpp:69 | as written the recorded GPR mask is the FPR mask; corrected it is the GPR mask |
| LinearScan.Unset | source/runtime/ir/opts/register_alloc_pass.cpp:309-311 | clearing a virtual register clears exactly that entry |
| LinearScan.VRelease | source/runtime/ir/opts/register_alloc_pass.cpp:308-312 | releasing an expired interval keeps the register table's length |
| LinearScan.VExpire | source/runtime/ir/opts/register_alloc_pass.cpp:306-318 | virtual expiry leaves exactly the unexpired intervals active and keeps the table's length |
| LinearScan.VStep | source/runtime/ir/opts/register_alloc_pass.cpp:298-303 | one virtual step makes the interval active after the unexpired ones, gives it a virtual register and changes no other instruction's |
| LinearScan.VRun | source/runtime/ir/opts/register_alloc_pass.cpp:292-304 | the virtual loop keeps its cursor inside the table |
| LinearScan.VExpireKeepsValid | source/runtime/ir/opts/register_alloc_pass.cpp:306-318 | virtual expiry keeps the invariant: each active interval's registers are taken and no two overlap |
| LinearScan.VStepKeepsValid | source/runtime/ir/opts/register_alloc_pass.cpp:298-303 | corrected: a virtual step keeps the invariant |
| LinearScan.VRunSeparates | source/runtime/ir/opts/register_alloc_pass.cpp:292-304 | corrected: over sorted intervals, an interval live at a later one's start holds virtual registers that do not overlap the later one's |
| LinearScan.VStepAsWrittenFirstVector | source/runtime/ir/opts/register_alloc_pass.cpp:333-346 | as written, the first vector interval takes register 0 and leaves register 1 free |
| LinearScan.VStepAsWrittenScalarUpper | source/runtime/ir/opts/register_alloc_pass.cpp:347-359 | as written, a scalar interval then takes register 1, the vector's upper half |
| LinearScan.VRunAsWrittenOverlaps | source/runtime/ir/opts/register_alloc_pass.cpp:330-361 | as written, a vector and an overlapping scalar interval get overlapping virtual registers |
| RegisterAllocPass.LinearScanAllocator.constructor | source/runtime/ir/opts/register_alloc_pass.cpp:32-37 | the masks start as the backend's GPR and FPR offers, with no interval, no active interval and no spill slot |
| RegisterAllocPass.LinearScanAllocator.AllocGpr | source/runtime/ir/opts/register_alloc_pass.cpp:211-217 | returns the first free GPR and takes it, or -1 with the mask unchanged; nothing else changes |
| RegisterAllocPass.LinearScanAllocator.AllocFpr | source/runtime/ir/opts/register_alloc_pass.cpp:219-225 | returns the first free FPR and takes it, or -1 with the mask unchanged; nothing else changes |
| RegisterAllocPass.LinearScanAllocator.FreeGpr | source/runtime/ir/opts/register_alloc_pass.cpp:260-263 | frees exactly that GPR, failing its ASSERT when it was free |
| RegisterAllocPass.LinearScanAllocator.FreeFpr | source/runtime/ir/opts/register_alloc_pass.cpp:265-268 | frees exactly that FPR, failing its ASSERT when it was free |
| RegisterAllocPass.LinearScanAllocator.FreeSpill | source/runtime/ir/opts/register_alloc_pass.cpp:270-273 | frees exactly that spill slot, failing its ASSERT when it was free |
| RegisterAllocPass.LinearScanAllocator.ReleaseInterval | source/runtime/ir/opts/register_alloc_pass.cpp:182-193 | the release of one expired interval succeeds exactly when Release does and leaves the resources it describes |
| RegisterAllocPass.LinearScanAllocator.ExpireNext | source/runtime/ir/opts/register_alloc_pass.cpp:180-198 | one pass of the erase loop keeps the loop on course to Expire, or shows that Expire fails |
| RegisterAllocPass.LinearScanAllocator.DropAt | source/runtime/ir/opts/register_alloc_pass.cpp:181-194 | erasing one expired interval keeps the loop on course to Expire, or shows that Expire fails |
| RegisterAllocPass.LinearScanAllocator.ExpireOldIntervals | source/runtime/ir/opts/register_alloc_pass.cpp:179-199 | expiry succeeds exactly when Expire does and leaves the active list and resources it describes |
| RegisterAllocPass.LinearScanAllocator.GrowSpillStack | source/runtime/ir/opts/register_alloc_pass.cpp:201-204 | the cursor moves to the old size and n free slots are appended |
| RegisterAllocPass.LinearScanAllocator.SpillAtInterval | source/runtime/ir/opts/register_alloc_pass.cpp:227-258 | the spill stack, cursor and the interval's allocation entry become SpillAt's slot and stack; the masks and lists are unchanged |
| RegisterAllocPass.LinearScanAllocator.AllocateOne | source/runtime/ir/opts/register_alloc_pass.cpp:51-70 | one iteration succeeds exactly when Step does and leaves the state it describes |
| RegisterAllocPass.LinearScanAllocator.AllocateSorted | source/runtime/ir/opts/register_alloc_pass.cpp:47-70 | the intervals are sorted and the loop succeeds exactly when Run does, leaving its state |
| RegisterAllocPass.LinearScanAllocator.MapHost | source/runtime/ir/opts/register_alloc_pass.cpp:111-118 | MapRegister of a host-register read is Pin |
| RegisterAllocPass.LinearScanAllocator.ScanInst | source/runtime/ir/opts/register_alloc_pass.cpp:110-166 | one instruction of the first collection loop succeeds exactly when ScanOne does and leaves its tables |
| RegisterAllocPass.LinearScanAllocator.ScanNext | source/runtime/ir/opts/register_alloc_pass.cpp:110-166 | one more instruction keeps the loop on course to ScanBlock, or shows that it fails |
| RegisterAllocPass.LinearScanAllocator.ScanList | source/runtime/ir/opts/register_alloc_pass.cpp:110-166 | the first collection loop succeeds exactly when ScanBlock does and leaves its tables |
| RegisterAllocPass.LinearScanAllocator.CollectBlockIntervals | source/runtime/ir/opts/register_alloc_pass.cpp:104-177 | block collection succeeds exactly when CollectBlock does, leaves its allocation result and appends its intervals |
| RegisterAllocPass.LinearScanAllocator.CollectValueOf | source/runtime/ir/opts/register_alloc_pass.cpp:76-100 | one value of the function loop does what CollectValue describes |
| RegisterAllocPass.LinearScanAllocator.CollectFunctionIntervals | source/runtime/ir/opts/register_alloc_pass.cpp:74-102 | function collection does what CollectValues describes and touches neither masks nor spill slots |
| RegisterAllocPass.LinearScanAllocator.AllocateBlock | source/runtime/ir/opts/register_alloc_pass.cpp:39-71 | block allocation: collect, sort, then the allocation loop, with the result of Run on the collected state |
| RegisterAllocPass.LinearScanAllocator.AllocateFunction | source/runtime/ir/opts/register_alloc_pass.cpp:39-71 | function allocation: collect, sort, then the allocation loop; success exactly when Run succeeds |
| RegisterAllocPass.RunStopsAt | source/runtime/ir/opts/register_alloc_pass.cpp:51-70 | a failing step makes the whole loop fail |
| RegisterAllocPass.FindFreePair | source/runtime/ir/opts/register_alloc_pass.cpp:232-237 | the pair search loop returns FirstFreePair |
| RegisterAllocPass.CreditValues | source/runtime/ir/opts/register_alloc_pass.cpp:154-164 | the credit loop returns Credit |
| RegisterAllocPass.LastUser | source/runtime/ir/opts/register_alloc_pass.cpp:93-96 | the for_each over the uses returns UsesEnd |
| RegisterAllocPass.CreditList | source/runtime/ir/opts/register_alloc_pass.cpp:366-374 | the virtual allocator's first loop returns CreditAll |
| RegisterAllocPass.IntervalsOf | source/runtime/ir/opts/register_alloc_pass.cpp:167-176 | the second collection loop returns Intervals |
| RegisterAllocPass.VRegisterAllocator.constructor | source/runtime/ir/opts/register_alloc_pass.cpp:288-290 | no virtual register, interval or active interval |
| RegisterAllocPass.VRegisterAllocator.ExpireOldIntervals | source/runtime/ir/opts/register_alloc_pass.cpp:306-318 | the active list and register table become VExpire's |
| RegisterAllocPass.VRegisterAllocator.ExpireNext | source/runtime/ir/opts/register_alloc_pass.cpp:307-317 | one pass of the erase loop keeps the loop on course to VExpire |
| RegisterAllocPass.VRegisterAllocator.VDropAt | source/runtime/ir/opts/register_alloc_pass.cpp:308-313 | erasing one expired interval keeps the loop on course to VExpire |
| RegisterAllocPass.VRegisterAllocator.GrowVRegs | source/runtime/ir/opts/register_alloc_pass.cpp:325-328 | the cursor moves to the old size and n free registers are appended |
| RegisterAllocPass.VRegisterAllocator.AllocVReg | source/runtime/ir/opts/register_alloc_pass.cpp:330-361 | the register table and cursor become SpillAt's and the interval's virtual register is SpillAt's slot |
| RegisterAllocPass.VRegisterAllocator.AllocateOne | source/runtime/ir/opts/register_alloc_pass.cpp:298-303 | one iteration leaves the state VStep describes |
| RegisterAllocPass.VRegisterAllocator.AllocateSorted | source/runtime/ir/opts/register_alloc_pass.cpp:294-303 | the intervals are sorted and the loop leaves the state VRun describes |
| RegisterAllocPass.VRegisterAllocator.CollectIntervals | source/runtime/ir/opts/register_alloc_pass.cpp:365-382 | collection appends VCollect's intervals and changes nothing else |
| RegisterAllocPass.VRegisterAllocator.AllocateRegisters | source/runtime/ir/opts/register_alloc_pass.cpp:292-304 | collect, sort, then the loop: the state VRun describes |
| RegisterAllocPass.Initial | source/runtime/ir/opts/register_alloc_pass.cpp:25-30 | the allocator's initial state fits its masks and has no active interval |
| RegisterAllocPass.BlockPass | source/runtime/ir/opts/register_alloc_pass.cpp:32-71 | allocating a block keeps the allocation result's length |
| RegisterAllocPass.FunctionPass | source/runtime/ir/opts/register_alloc_pass.cpp:25-71 | allocating a function keeps the allocation result's length |
| RegisterAllocPass.BuilderPass | source/runtime/ir/opts/register_alloc_pass.cpp:391-395 | allocating every function keeps the allocation result's length |
| RegisterAllocPass.RunBlock | source/runtime/ir/opts/register_alloc_pass.cpp:32-71 | running the allocator on a block succeeds exactly when BlockPass does and leaves its allocation result |
| RegisterAllocPass.RunFunction | source/runtime/ir/opts/register_alloc_pass.cpp:397-400 | the pass on a function succeeds exactly when FunctionPass does and leaves its allocation result |
| RegisterAllocPass.RunBuilder | source/runtime/ir/opts/register_alloc_pass.cpp:391-395 | the pass on a builder succeeds exactly when BuilderPass does and leaves its allocation result |
| RegisterAllocPass.RunNext | source/runtime/ir/opts/register_alloc_pass.cpp:392-394 | one more function keeps the loop on course to BuilderPass, or shows that it fails |
| RegisterAllocPass.BuilderNoneExtends | source/runtime/ir/opts/register_alloc_pass.cpp:391-395 | a failing function makes the whole builder pass fail |
| RegisterAllocPass.RunVirtual | source/runtime/ir/opts/register_alloc_pass.cpp:288-304 | the virtual allocator's registers are those of VRun over the sorted VCollect intervals |
| RegAllocResult.Resolve | source/runtime/backend/reg_alloc.cpp:50-53 | following REF entries ends at an id inside the table whose entry is not a reference; an entry that is not a reference resolves to itself |
| RegAllocResult.ValueOfKind | source/runtime/backend/reg_alloc.cpp:50-72 | a lookup that succeeds returns the slot of some entry of the asked kind |
| RegAllocResult.ReferenceResolves | source/runtime/backend/reg_alloc.cpp:30-72 | after MapReference(from, to), looking up to gives the register or slot of from |
| RegAllocResult.ResolveThrough | source/runtime/backend/reg_alloc.cpp:50-53 | a REF entry resolves as the entry it names |
| RegAllocResult.RegAlloc.constructor | source/runtime/backend/reg_alloc.cpp:9-10 | one empty entry per instruction, with the given GPR and FPR offers |
| RegAllocResult.RegAlloc.MapGpr | source/runtime/backend/reg_alloc.cpp:18-22 | sets that id's entry to GPR with the register index, and changes nothing else |
| RegAllocResult.RegAlloc.MapFpr | source/runtime/backend/reg_alloc.cpp:12-16 | sets that id's entry to FPR with the register index, and changes nothing else |
| RegAllocResult.RegAlloc.MapMemSpill | source/runtime/backend/reg_alloc.cpp:24-28 | sets that id's entry to MEM with the spill offset, and changes nothing else |
| RegAllocResult.RegAlloc.MapReference | source/runtime/backend/reg_alloc.cpp:30-34 | sets the entry of to to REF naming from, and changes nothing else |
| RegAllocResult.RegAlloc.SetActiveRegs | source/runtime/backend/reg_alloc.cpp:36-40 | records the two dirty masks in that id's entry, and changes nothing else |
| RegAllocResult.RegAlloc.ValueGpr | source/runtime/backend/reg_alloc.cpp:50-56 | a GPR entry gives its register; an entry of another kind that is not a reference fails the ASSERT |
| RegAllocResult.RegAlloc.ValueFpr | source/runtime/backend/reg_alloc.cpp:58-64 | an FPR entry gives its register; an entry of another kind that is not a reference fails the ASSERT |
| RegAllocResult.RegAlloc.ValueMem | source/runtime/backend/reg_alloc.cpp:66-72 | a MEM entry gives its slot; an entry of another kind that is not a reference fails the ASSERT |
| X86Decoder.CondValue | source/runtime/frontend/x86/decoder.h:19-22 | the condition codes number 0 to 23 in declaration order |
| X86Decoder.CondAliases | source/runtime/frontend/x86/decoder.h:19-22 | distinct conditions have distinct values, and HS, LO, OF, NO share the values of CS, CC, VS, VC |
| X86Decoder.GetSize | source/runtime/frontend/x86/decoder.cc:66-82 | the unsigned type of a width exists exactly for 0, 8, 16, 32 and 64 bits and has that width |
| X86Decoder.GetSignedSize | source/runtime/frontend/x86/decoder.cc:84-100 | the signed type of a width exists exactly for 0, 8, 16, 32 and 64 bits and has that width |
| X86Decoder.GetVecSize | source/runtime/frontend/x86/decoder.cc:102-122 | the vector type of a width exists exactly for 0 to 256 bits in powers of two from 8, and has that width |
| X86Decoder.SizesInvertWidth | source/runtime/frontend/x86/decoder.cc:66-122 | each size lookup inverts the bit width of the types it returns |
| X86Decoder.ToReg | source/runtime/frontend/x86/decoder.cc:124-139 | a register index up to Rip gets a context slot of the row's type; a general register's slot is regs plus index times the slot size; any other index panics |
| X86Decoder.ToVReg | source/runtime/frontend/x86/decoder.cc:141-152 | an index from Xmm0 to Ymm15 gets a slot in the xmms area of the row's type; any other index panics |
| X86Decoder.ToVRegSeparates | source/runtime/frontend/x86/decoder.cc:141-152 | two different XMM registers, or two different YMM registers, get different slots |
| X86Decoder.Ymm0OverlaysXmm0 | source/runtime/frontend/x86/decoder.cc:141-152 | YMM0 and XMM0 share the first slot of the xmms area |
| X86Decoder.Row | source/runtime/frontend/x86/decoder.h:91-215 | every row names an index up to Ymm15, and exactly the codes up to RIP name an index up to Rip |
| X86Decoder.TableWidths | source/runtime/frontend/x86/decoder.h:91-215 | the 64-bit and RIP rows are U64, the 32-bit rows U32, the 16-bit and segment rows U16, the 8-bit rows U8, x87 and XMM rows V128, MMX rows V64 and YMM rows V256 |
| X86Decoder.TableAliases | source/runtime/frontend/x86/decoder.h:91-215 | the 32-, 16- and 8-bit names of each general register map to its index |
| X86Decoder.Ymm0RowAsWrittenCarriesXmm0Code | source/runtime/frontend/x86/decoder.h:199 | as written, the YMM0 row carries the code of XMM0 |
| X86Decoder.RowCodesMatch | source/runtime/frontend/x86/decoder.h:91-215 | corrected, every row carries its own code |
| X86Decoder.R8bAsWrittenFlaggedHigh | source/runtime/frontend/x86/decoder.h:148 | as written, the R8B row is flagged as a high byte |
| X86Decoder.HighExactlyAhToBh | source/runtime/frontend/x86/decoder.h:91-215 | corrected, exactly AH, CH, DH and BH are flagged high |
| X86Decoder.RegSlot | source/runtime/frontend/x86/decoder.cc:400-416 | a register code up to YMM15 gets a slot of its row's type through ToReg or ToVReg; any other code panics |
| X86Decoder.AhAsWrittenIsAl | source/runtime/frontend/x86/decoder.cc:124-139 | as written, AH and AL address the same slot, because ToReg ignores the high flag |
| X86Decoder.RegSlotSeparates | source/runtime/frontend/x86/decoder.cc:124-139 | corrected, two different registers of the same type up to RIP get different slots |
| X86Decoder.ToRegSeparates | source/runtime/frontend/x86/decoder.cc:124-139 | corrected, different indices or high flags give different slots when the areas do not overlap |
| X86Decoder.SlotIn | source/runtime/frontend/x86/decoder.cc:124-139 | a general register's slot lies in the regs area, a segment's in the segs area, and RIP's is pc |
| X86Decoder.ToIROperand | source/runtime/frontend/x86/decoder.h:255-265 | the left side is kept; the right side is void exactly when there is neither a right side nor a shift; with a right side the operation is the operand's type and shift |
| X86Decoder.ToIROperandOneSided | source/runtime/frontend/x86/decoder.h:255-269 | with no right side, an immediate operand becomes one-sided and a shift becomes an LSL by the shift amount |
| X86Decoder.ToIROperandInjective | source/runtime/frontend/x86/decoder.h:255-265 | two one-sided operands with the same IR operand have the same left side and shift |
| X86Decoder.ScaleShift | source/runtime/frontend/x86/decoder.cc:638-648 | the shift exists exactly for scales 0, 2, 4 and 8 and is the scale's base-2 logarithm; another scale panics |
| X86Decoder.ScaleShiftInverts | source/runtime/frontend/x86/decoder.cc:638-648 | the scale 2^k gives back k for k from 1 to 3 |
| X86Decoder.FarAddress | source/runtime/frontend/x86/decoder.cc:541-546 | a far pointer's address is the 32-bit wrap of segment times 16 plus offset |
| X86Decoder.FarPointer | source/runtime/frontend/x86/decoder.cc:541-546 | a far pointer operand is a U32 immediate holding that address |
| X86Decoder.FarAddressRealMode | source/runtime/frontend/x86/decoder.cc:541-546 | with a 16-bit offset the address is segment times 16 plus offset, below 0x110000 |
| X86Decoder.AddrMask | source/runtime/frontend/x86/decoder.cc:159 | the address mask is all ones over 64 bits in 64-bit mode and over 32 bits otherwise |
| X86Decoder.AddrMaskWraps | source/runtime/frontend/x86/decoder.cc:159 | masking an address reduces it modulo 2^64 or 2^32 |
| X86Decoder.DecodeSwitch | source/runtime/frontend/x86/decoder.cc:185-398 | exactly the listed mnemonics are translated; any other falls back |
| X86Decoder.CompareIsSubtract | source/runtime/frontend/x86/decoder.cc:340-345 | CMP is a subtraction that keeps only the flags, SUB one that stores the result |
| X86Decoder.TestIsAnd | source/runtime/frontend/x86/decoder.cc:373-378 | TEST is an AND that keeps only the flags, AND one that stores the result |
| X86Decoder.Steps | source/runtime/frontend/x86/decoder.cc:162-183 | the decode loop always hands the assembler at least one event |
| X86Decoder.FirstEnd | source/runtime/frontend/x86/decoder.cc:164-181 | the first instruction whose commit ends the block |
| X86Decoder.StepsShape | source/runtime/frontend/x86/decoder.cc:162-183 | each translated instruction is followed by its AdvancePC; a run that ends by commit translates exactly the instructions up to the first commit that ends the block |
| X86Decoder.StepsAdvance | source/runtime/frontend/x86/decoder.cc:175-180 | unless the run falls back, pc ends at the start plus the sum of the advanced sizes, modulo 2^64 |
| X86Decoder.NextPc | source/runtime/frontend/x86/decoder.cc:175 | the next pc is a 64-bit value |
| X86Decoder.NextPcAdd | source/runtime/frontend/x86/decoder.cc:175 | advancing by a then b is advancing by a + b, and advancing by 0 keeps pc |
| X86Decoder.FallbackOnUnlisted | source/runtime/frontend/x86/decoder.cc:176-179 | an unlisted mnemonic raises FALLBACK with pc already past the instruction; a committed run raises nothing |
| X86Decoder.ResumesStop | source/runtime/frontend/x86/decoder.cc:165-179 | an unmapped page raises PAGE_FATAL, an undecodable instruction ILL_CODE, an untranslated one FALLBACK past it, and the loop stops there |
| X86Decoder.ResumesStep | source/runtime/frontend/x86/decoder.cc:175-181 | a translated instruction emits its translation and AdvancePC; the loop stops exactly when the commit ends the block |
| X86Decoder.X64Decoder.constructor | source/runtime/frontend/x86/decoder.cc:154-160 | pc starts at start, the block is open, nothing is emitted, and the address mask follows the mode |
| X86Decoder.X64Decoder.Decode | source/runtime/frontend/x86/decoder.cc:162-183 | pc restarts at start; on an open block the decoder emits exactly what Steps describes and ends at its pc and commit state, and on an ended block it emits nothing |
| X86Decoder.X64Decoder.DecodeLoop | source/runtime/frontend/x86/decoder.cc:164-182 | the while loop emits exactly what Steps describes |
| X86Decoder.X64Decoder.DecodeNext | source/runtime/frontend/x86/decoder.cc:165-181 | one iteration keeps the loop on course to Steps, or stops where Steps stops |
| Arm64MoveWide.MoveWide | source/runtime/frontend/arm64/arm64_frontend.cpp:113-152 | a move-wide instruction writes a value for every form except a W form with hw of 2 or more, which the decoder asserts away |
| Arm64MoveWide.ShiftedImmValue | source/runtime/frontend/arm64/arm64_frontend.cpp:122-123 | the immediate shifted by 16 * hw is imm16 * 2^(16 * hw) and loses no bit |
| Arm64MoveWide.MovzValue | source/runtime/frontend/arm64/arm64_frontend.cpp:141-144 | MOVZ writes the immediate at its halfword with every other bit zero, and the value fits the register width |
| Arm64MoveWide.MovnValue | source/runtime/frontend/arm64/arm64_frontend.cpp:127-132 | MOVN writes the bitwise complement of the shifted immediate within the register width (32 bits for W forms) |
| Arm64MoveWide.MovnComplement | source/runtime/frontend/arm64/arm64_frontend.cpp:129-130 | negating and masking an immediate of the register width is its complement in that width |
| Arm64MoveWide.InsertHalfword | source/runtime/frontend/arm64/arm64_frontend.cpp:138 | inserting a halfword into a word keeps the word in range and the halfword reads back from its position |
| Arm64MoveWide.MovkValue | source/runtime/frontend/arm64/arm64_frontend.cpp:134-139 | MOVK puts the immediate into its halfword and keeps every other bit of the register's previous value |
| Arm64Trampolines.ViewOf | source/runtime/backend/arm64/trampolines.cpp:182-219 | an access has a register view exactly when it is 16, 8 or 4 bytes wide; any other size is a panic |
| Arm64Trampolines.PlanCoversEachOnce | source/runtime/backend/arm64/trampolines.cpp:175-222 | the save loop transfers every static uniform exactly once and in table order, pairing neighbours or moving one at a time |
| Arm64Trampolines.PlanFailsOnlyOnBadSize | source/runtime/backend/arm64/trampolines.cpp:182-219 | when every access is 16, 8 or 4 bytes wide the loop never panics |
| Arm64Trampolines.PairsAdjacent | source/runtime/backend/arm64/trampolines.cpp:180-181 | two entries share one paired access only when the second starts where the first ends and both have that size |
| Arm64Trampolines.RestoreMirrorsSave | source/runtime/backend/arm64/trampolines.cpp:224-271 | restore follows the same pairing plan as save, panics on the same tables, and loads where save stores |
| Arm64Trampolines.BuildStaticUniform | source/runtime/backend/arm64/trampolines.cpp:175-222 | the loop panics exactly when the pairing plan fails and otherwise emits exactly that plan's steps |
| Arm64Trampolines.RestoreReversesSave | source/runtime/backend/arm64/trampolines.cpp:147-173 | the host callee-saved registers are popped in exactly the reverse order of the pushes |
| Arm64Trampolines.CalleeStackBalanced | source/runtime/backend/arm64/trampolines.cpp:147-173 | save and restore move the stack pointer by the same 224 bytes, so it returns to where it was |
| Arm64Trampolines.LinkBlockReachesTarget | source/runtime/backend/arm64/trampolines.cpp:273-303 | linking fails exactly for position-independent links 4GB or more away; otherwise the emitted jump lands on the target, a single B only within 128MB and ADRP only within 4GB |
| ElfLoader.FlagTest | source/translator/linux/loader.cpp:18-20 | testing a segment flag by masking with its bit is nonzero exactly when that bit is set |
| ElfLoader.ProtMatchesFlags | source/translator/linux/loader.cpp:16-22 | the mapping is readable, writable or executable exactly when the segment's PF_R, PF_W or PF_X flag is set, and carries no other protection bit |
| ElfLoader.PageRoundingAgrees | source/translator/linux/loader.cpp:33-34 | the page rounding of the loader is the shared RoundDown/RoundUp for the page size |
| ElfLoader.PageRounding | source/translator/linux/loader.cpp:116-140 | without wrap-around, rounding down and up give the neighbouring page boundaries |
| ElfLoader.BssShape | source/translator/linux/loader.cpp:30-49 | without wrap-around, the bss handling of a segment larger in memory than in the file is decided by the unwrapped file end, the page after it, the page after the memory end and the write flag |
| ElfLoader.BssAnonPages | source/translator/linux/loader.cpp:35-43 | the anonymous bss mapping covers whole pages only and carries the segment's own protection |
| ElfLoader.BssZeroFill | source/translator/linux/loader.cpp:44-47 | the zero fill starts at the end of the file data, stays in that page, and happens only for writable segments |
| ElfLoader.BssCovered | source/translator/linux/loader.cpp:30-49 | every bss byte of a writable segment is zero-filled or lies in an anonymous page |
| ElfLoader.MachineAsWritten | source/translator/linux/loader.cpp:72-88 | as written, a header that passes the identity comparisons records machine 0, and one that fails them is accepted when its machine is one of the four supported |
| ElfLoader.MachineChecked | source/translator/linux/loader.cpp:72-88 | the intended check: a header is accepted exactly when its identity is right and its machine supported, and it records that machine |
| ElfLoader.MachineAsWrittenInverted | source/translator/linux/loader.cpp:72-88 | the check as written and the intended check never agree: a good header loses its machine and a bad one with a known machine is accepted |
| ElfLoader.FirstLoadFrom | source/translator/linux/loader.cpp:98-99 | the scan stops at the first PT_LOAD header, or at e_phnum when there is none, having passed only other headers |
| ElfLoader.LastLoadDown | source/translator/linux/loader.cpp:107-109 | the walk down stops at the last PT_LOAD header after the first, or at the first when there is none later |
| ElfLoader.FindFirstLoad | source/translator/linux/loader.cpp:98-99 | the scanning loop finds the first PT_LOAD header |
| ElfLoader.FindLastLoad | source/translator/linux/loader.cpp:108-109 | the walk from the last header down finds the last PT_LOAD header |
| ElfLoader.MapSegments | source/translator/linux/loader.cpp:134-154 | the segment loop issues the operations of every header after the first PT_LOAD up to the last, in order |
| ElfLoader.InterpOf | source/translator/linux/loader.cpp:165-175 | the interpreter path is found in the image when its file range starts no earlier and is no longer than the first segment's, else read into a buffer it must fit, else a panic |
| ElfLoader.FindInterp | source/translator/linux/loader.cpp:158-178 | the loop takes the first PT_INTERP header only |
| ElfLoader.LoadElfFile | source/translator/linux/loader.cpp:65-185 | loading an image gives exactly the specified panic or the specified LoadInfo and memory operations |
| ElfLoader.MapImage | source/translator/linux/loader.cpp:115-184 | from the first mapping on, the loader gives exactly the specified outcome |
| ElfLoader.HeaderChecks | source/translator/linux/loader.cpp:89-93 | a header count outside 1 to 12 or a type other than ET_DYN is a panic |
| ElfLoader.NoLoadPanics | source/translator/linux/loader.cpp:98-101 | an image with no PT_LOAD header among its e_phnum headers is a panic |
| ElfLoader.LoadedAddresses | source/translator/linux/loader.cpp:107-184 | a successful load maps from the first PT_LOAD's page over the whole span to the last segment's end, moves entry and program headers by the load bias, and had its first PT_LOAD start in the file at or before the program headers and reach past the end of their table |
| ElfLoader.PhdrsInFirstLoad | source/translator/linux/loader.cpp:123-128 | once the header checks pass, a PT_LOAD exists and the mapping succeeds, the load panics with PhdrsNotInFirstLoad exactly when the first PT_LOAD does not hold the program-header table |
| ElfLoader.BiasMapsFirstPage | source/translator/linux/loader.cpp:125 | the load bias moves the first segment's page exactly to the address the mapping returned |
| ElfLoader.GapProtected | source/translator/linux/loader.cpp:136-152 | the hole before a PT_LOAD segment's pages is protected PROT_NONE before the segment is mapped at its page with its own protection |
| ElfLoader.SkipsOtherHeaders | source/translator/linux/loader.cpp:135-136 | headers other than PT_LOAD inside the segment range issue no operation and leave the segment end alone |

## Left out

Contracts deliberately weaker than the source, or narrower in scope:

- DeadCode.Sweep: builds the list of kept instructions as a new sequence. The source erases the dead ones from the intrusive list in place, so the model does not capture the list nodes' identity or its iterators.
- RiscvLabel.Label.BindTo: requires that the bound position fits the label's encoding (`BoundWord(p) < 0`). The source CHECKs this and aborts otherwise; the abort is not modelled.
- RiscvLabel.Label.LinkTo: requires that the linked position fits (`LinkedWord(p) > 0`). The source CHECKs this and aborts otherwise; the abort is not modelled.
- RegAllocResult.Resolve: follows at most `fuel` reference links. On a cycle of REF entries the source recurses forever; the model gives nothing once the fuel runs out.
- Slab.SlabAllocator.Allocate: the free list is a sequence of slot indices. The source threads the list through the free objects' own memory, so aliasing between a free slot and the list is not modelled. The compare-and-swap retry loop is modelled as a single atomic step.
- Slab.SlabAllocator.Free: pushes onto the same sequence, and its compare-and-swap loop is likewise one atomic step.
- Arena.MemArena.Memory: requires the request to fit a fresh chunk (`size <= newChunkSize`), which the source does not check. Arena.OversizedRequestOverruns shows that an oversized request runs past the chunk in the source. Chunks are modelled by their size and fill level, not by their bytes.
- RiscvMemory.MemoryRegion.LoadUnaligned: covers values of at most four bytes. The source promotes each byte to `int` before shifting it, so wider types shift by 32 or more, which C++ leaves undefined.
- BackendModule.AllocCode: a code cache is a budget of remaining bytes handed out from the front. The source allocates from a dlmalloc mspace, whose placement and frees are not modelled.
- BackendModule.Module.AllocCodeCache: models the corrected behaviour: it returns nothing when a fresh cache cannot hold the request. The source dereferences the empty result (see Findings).
- `Module::GetCodeCache` (source/runtime/backend/module.cpp:158) is not modelled. `CodeCache::Contain` always returns false in the source, so GetCodeCache always returns null.
- TranslateTable.TranslateTable.Lookup: its shared lock is not traced. Only the exclusive acquisitions of Put, GetOrPut and Replace are recorded, as a ghost trace. The locks of Module and AddressHashMap, and every other synchronisation, are left out: each operation is modelled as atomic.
- TranslateTable.TranslateTable.Remove: models the corrected probe, which steps modulo the table size and stops after one round. The source's step never terminates on some tables (see Findings).
- X86Decoder.ToReg: the offsets of the guest registers in `ThreadContext64` come in as a `Layout` parameter, because translator/x86/cpu.h is not part of this model. The contract holds for any layout whose offsets are distinct.
- X86Decoder.ToVReg: takes the vector-register offsets from the same `Layout` parameter, for the same reason.
- X86Decoder.X64Decoder.Decode: the answers of the assembler's `EndCommit` are a finite sequence whose last answer ends the block (`Answers`), and DecodeLoop and Steps require the same. Runs in which EndCommit never ends the block, and no page fault, illegal or unlisted opcode stops the loop, are outside the model.
- CfgAnalysis.Run: models the corrected pass, which puts the entry block into the reverse post-order. CfgAnalysis.RunAsWritten models the source, which never appends it (see Findings).
- CfgAnalysis.RunAll: runs the corrected pass on every function.
- AddressMap.AddressHashMap.GetRange: models the corrected look-back, which saturates at 0 instead of wrapping. AddressMap.AddressHashMap.GetRangeAsWritten models the source's wrapping subtraction.
- AddressMap.AddressHashMap.GetRangeLookBack: a node that starts before `start` is returned only when it lies in the bucket window, one node back. A node stored further back in the same bucket is missed, as in the source.
- RiscvBuffer.AssemblerBuffer.Load: checks the guard without the unsigned wrap. RiscvBuffer.AssemblerBuffer.LoadAsWritten models the source's guard.
- RiscvBuffer.AssemblerBuffer.Store: checks the guard without the unsigned wrap. RiscvBuffer.AssemblerBuffer.StoreAsWritten models the source's guard.
- RiscvBuffer.AssemblerBuffer.ExtendCapacity: the grown capacity and the contents of the new bytes are parameters, because the body of ExtendCapacity is not part of this model.
- UniformElimination.Scan: models the corrected scan. It reads Null the right way round, compares byte 0 with the stored value, and requires the stored bytes to lie at consecutive offsets. UniformElimination.ScanAsWrittenNeverDefined and UniformElimination.ScanNullFixedOnly model the first two as written. The `fixed` flag of Visit and Run selects between the two.
- BitFields.FieldMask: requires a field type of at least 32 bits. Narrower types are promoted to `int` in C++ and are not modelled; every bit field in the runtime is stored in a u64.
- BitFields.WellFormed: states that 32-bit floor together with the template's own static checks.
- ElfLoader.LoadElfFile: keeps the identity check as written, which guards only the machine switch (see Findings). mmap, pread and mprotect are recorded as a list of operations rather than performed.
- ElfLoader Execve, the stack setup and the auxiliary vector are not part of this model.
- HirBuilder.HIRFunction.AppendInst: requires exactly `MaxArgs` argument slots, with no HIR value for the instruction yet. It does not free the instruction's Params nodes as the original does at hir_builder.cpp:127; that free is recorded under Findings and modelled by RegisterParamsAsWritten.
- HirBuilder.HIRFunction.BuildLinks: fails when there are 2^16 or more blocks. The u16 order id wraps, and the source would index outside the block vector.
- HirBuilder phi nodes (`HIRBlock::AppendPhi`, `HIRPhi::AddInput`, `AddBackEdge`) are not modelled. RemoveEdge, MergeAdjacentBlocks and SplitBlock have empty bodies in the source.
- HirBuilder `CreateBlockVector` is a sequence of the given length, and the HIR pools are unbounded; their capacities are not modelled.
- IrBlock `InsertBefore` and `InsertAfter` (block.cpp:26-36) are not declared in block.h and are not modelled. The trivial getters, `ToString` and the destructor's lock are left out too.
- IrInst.Create: creating an instruction through an allocator is modelled the same as `new`.
- RegAllocResult `GetGprs`, `GetFprs`, `GetDirtyGPR`, `GetDirtyFPR` and `SetCurrent` are not modelled, because the backend's current instruction lies outside the model.
- LocalElimination: local_elimination.h is out of sync with its .cpp; the model follows the .cpp.
- CommonFuncs: runtime/common/common_funcs.h repeats the shared helpers of base/common_funcs.h (in namespace swift::runtime); those are modelled once.
- IrInst `GetIRMetaInfo`: the IR opcode metadata is a `MetaTable` parameter, because the generated opcode list is not part of this model.

## Findings

| source | as written | input that shows it | evidently intended | confidence | as-written member | corrected member |
|---|---|---|---|---|---|---|
| source/runtime/backend/translate_table.h:124-140 | Remove steps to `(index + 1) & size`, where `size` is a power of two, so every step from below the last slot lands on slot 0 | hash_bits 2, key 1 in slot 0, key 9 in slot 2, then Remove(8): the probe goes from slot 2 to slot 0 and stays there, never reaching end = 1 | step modulo the table size and stop after one round | not executed | TranslateTable.RemoveAsWrittenLoops, TranslateTable.NextIndexAsWritten | TranslateTable.TranslateTable.Remove, TranslateTable.FindForRemove, TranslateTable.RemoveThenLookup |
| source/runtime/backend/translate_table.h:101-122 | Replace holds the exclusive lock and, when the key is absent, calls Put, which locks the same non-recursive `std::shared_mutex` again | Replace of a key that is not in the table: the recorded acquisitions are [false, true], and the second locks a mutex the thread already owns (undefined behaviour) | put under the lock already held | not executed | TranslateTable.TranslateTable.Replace, TranslateTable.ReplaceRelocksWhenAbsent | TranslateTable.TranslateTable.ReplaceHeld, TranslateTable.ReplaceLocksOnce |
| source/runtime/common/address_hash_map.h:53 | `start - 64_KB` is an unsigned subtraction, so for a start below 64 KB it wraps past `addr_start` and the first bucket lies after the last | GetRange with start below 64 KB on a table whose addresses sit at the top of the 64-bit space: it returns nothing, even nodes at `start` | look back at most to `addr_start`, saturating at 0 | not executed | AddressMap.AddressHashMap.GetRangeAsWritten, AddressMap.AddressHashMap.GetRangeAsWrittenFindsNothing | AddressMap.AddressHashMap.GetRange, AddressMap.AddressHashMap.GetRangeComplete, AddressMap.AddressHashMap.GetRangeAgrees |
| source/runtime/backend/module.cpp:212-215 | AllocCodeCache dereferences the optional from AllocCode on the fresh cache without checking it | a u32 request of 512 MB + 1: the fresh cache holds 512 MB, AllocCode returns nothing, and the empty optional is dereferenced | report that no cache can hold the request | not executed | BackendModule.FreshCacheTooSmall | BackendModule.Module.AllocCodeCache, BackendModule.FreshCacheHoldsUpTo512MB |
| source/runtime/externals/riscv-asm/riscv64/assembler_riscv64.h:706-714 | the guard `position <= Size() - sizeof(T)` is computed in `size_t` and wraps when fewer than `sizeof(T)` bytes are emitted | an empty buffer: the guard admits Load<uint32_t>(0), which reads four bytes that were never emitted | admit only `position + sizeof(T) <= Size()` | not executed | RiscvBuffer.AssemblerBuffer.LoadAsWritten, RiscvBuffer.AssemblerBuffer.LoadAsWrittenReadsUnemitted | RiscvBuffer.AssemblerBuffer.Load, RiscvBuffer.LoadGuardAgrees |
| source/runtime/ir/instr.cpp:86-99 | SetArg(Operand) converts both sides with `ToArgClass`, which panics on the Void side of a one-sided operand | `Operand{imm}` as the frontend builds it: SetArg panics | store a Void side as an empty slot | not executed | IrInst.SetOperandAsWritten, IrInst.OneSidedOperandPanics | IrInst.SetOperand, IrInst.SetOperandGetOperand, IrInst.SetOperandSucceeds |
| source/runtime/ir/instr.h:33-47 | SetArgs' static check bounds the number of arguments, but an Operand takes three slots | three arguments, the last an Operand: they pass the check and need five of the four slots | bound the number of slots | not executed | IrInst.SetArgsCheckAsWritten, IrInst.SetArgsCheckAsWrittenOverflows, IrInst.SetArgsAsWrittenFails | IrInst.SetArgsCheck, IrInst.SetArgsCheckBounds |
| source/runtime/ir/instr.cpp:333-345 | PublicIndex grows `max_index` inside the loop that walks `arg_types`, so the loop reads public argument types past the one asked for | public arguments [Operand, Value] and index 1: the loop reads `arg_types[2]`, past the two public arguments | walk only the public arguments before the index and add two slots per Operand, giving slot 3 | not executed | IrInst.PublicIndexAsWritten, IrInst.PublicIndexAsWrittenReadsPast | IrInst.PublicIndex, IrInst.PublicIndexCount |
| source/runtime/ir/block.cpp:19 | HasTerminal tests `!block_term.empty()`, which holds for every block, terminal or not | a fresh block with no terminal: HasTerminal says it has one | true exactly when a terminal was set | not executed | IrBlock.HasTerminalAsWritten, IrBlock.HasTerminalAsWrittenOnFreshBlock | IrBlock.HasTerminal |
| source/runtime/ir/hir_builder.cpp:186-196 | each block's `GetHIRValues()` is the function's whole value map, so IdByRPO numbers every value once per block | two blocks with one value each: the first value ends with id 2, not 0 | consecutive ids from 0 in reverse post-order | not executed | HirBuilder.IdByRPOAsWrittenSkipsIds | HirBuilder.HIRFunction.IdByRPO, HirBuilder.IdByRPOConsecutive |
| source/runtime/ir/opts/cfg_analysis_pass.cpp:164-200 | ComputeDominanceInformation pushes the entry block on the worklist but never appends it to the reverse post-order list | any function: the entry block is missing from the reverse post-order | the reverse post-order starts with the entry block | not executed | CfgAnalysis.ComputeDominanceInformationAsWritten, CfgAnalysis.RunAsWritten | CfgAnalysis.ComputeDominanceInformation, CfgAnalysis.Run |
| source/runtime/ir/opts/cfg_analysis_pass.cpp:101-114 | UpdateDominatorOfSuccessor takes a null dominator as "not yet set", including the entry's, which has none | an edge from a block back into the entry: the entry gets that block as dominator, and the dominator chains form a cycle | the entry keeps no dominator | not executed | CfgAnalysis.EntryBackEdgeMakesCycle | CfgAnalysis.DominanceWalk, CfgAnalysis.StepSound |
| source/runtime/ir/opts/uniform_elimination_pass.cpp:13-15 | `UniformValue::Null` returns `value.Defined()`, the opposite of its name | any load after a store of the same bytes: a held byte stops the scan and an empty one lets it go on, so nothing is ever forwarded | Null is true when no value is held | not executed | UniformElimination.ScanAsWrittenNeverDefined, UniformElimination.VisitLoadAsWrittenKeeps, UniformElimination.WalkAsWrittenKeepsOps | UniformElimination.Scan, UniformElimination.ScanIff, UniformElimination.VisitLoadForwards |
| source/runtime/ir/opts/uniform_elimination_pass.cpp:59 | byte 0 is compared with `value_load` before anything is loaded, so the scan stops at byte 0 | with Null corrected alone, any load after a matching store: the comparison at byte 0 stops the forward | compare only from byte 1 on | not executed | UniformElimination.ScanNullFixedOnly, UniformElimination.ScanNullFixedOnlyNeverDefined | UniformElimination.Scan, UniformElimination.ScanComplete |
| source/runtime/ir/opts/uniform_elimination_pass.cpp:53-76 | the scan checks only that every byte holds the same value, not that the bytes are in order, yet line 74 extracts from `value_offset` as if they were; line 107 records each byte's offset | storing 4 bytes of v at o and again at o + 2, then loading 2 bytes at o + 1: bytes 1 and 0 of v are forwarded as bytes 0 and 1 | forward only when the byte offsets are consecutive | not executed | UniformElimination.ScanUnordered, UniformElimination.ScanUnorderedForwardsSwappedBytes, UniformElimination.OverlappingStoresSwapBytes | UniformElimination.Scan, UniformElimination.ScanSound |
| source/runtime/ir/opts/register_alloc_pass.cpp:250-256 | a scalar spill with every slot taken uses `spill_slot_cursor`, which GrowSpillStack (line 202) sets to the size before the last growth: a slot already taken | two scalar intervals live at once with no GPR free: both are spilled to slot 0 | spill to a fresh slot at the end | not executed | LinearScan.ScalarSpillAsWrittenReusesSlot, LinearScan.ScalarSpillsAsWrittenCollide, LinearScan.RunAsWrittenSharesSlot | LinearScan.SpillFresh, LinearScan.RunSpillsApart |
| source/runtime/ir/opts/register_alloc_pass.cpp:243 | a vector spill marks only the lower of its two slots | a vector spill into an empty pair: the upper slot stays free | mark both slots | not executed | LinearScan.VectorSpillAsWrittenLeavesUpperSlot | LinearScan.MarkPair |
| source/runtime/ir/opts/register_alloc_pass.cpp:330-361 | AllocVReg marks only the lower virtual register of a vector pair | a vector interval, then a scalar interval that starts while it is live: the scalar receives the vector's upper half | mark both registers of the pair | not executed | LinearScan.VStepAsWrittenFirstVector, LinearScan.VStepAsWrittenScalarUpper, LinearScan.VRunAsWrittenOverlaps | LinearScan.VRunSeparates |
| source/runtime/ir/opts/register_alloc_pass.cpp:69 | SetActiveRegs is called with `(active_fprs, active_gprs)`, while its signature (source/runtime/backend/reg_alloc.cpp:36) takes the GPR mask first | any interval whose live GPR and FPR masks differ: the recorded dirty GPRs are the FPR mask | pass the GPR mask first | not executed; plausible only: the call compiles only if GPRSMask and FPRSMask are the same type, and their typedefs are not part of this model | LinearScan.DirtyAsWrittenSwapsMasks | LinearScan.Dirty |
| source/runtime/frontend/x86/decoder.h:199 | the YMM0 row of the register table carries the code `R_XMM0` | decoding YMM0: the row found is the XMM0 code's | the row carries `R_YMM0` | not executed | X86Decoder.Ymm0RowAsWrittenCarriesXmm0Code | X86Decoder.RowCodesMatch |
| source/runtime/frontend/x86/decoder.h:148 | the R8B row is flagged as a high byte register | R8B, the low byte of R8 | only AH, CH, DH and BH are high | not executed | X86Decoder.R8bAsWrittenFlaggedHigh | X86Decoder.HighExactlyAhToBh |
| source/runtime/frontend/x86/decoder.cc:124-139 | ToReg ignores the high flag, so a high byte register gets the offset of the whole register | AH: it reads and writes the same slot as AL | a high byte register maps one byte above its register's low byte | not executed | X86Decoder.AhAsWrittenIsAl | X86Decoder.ToRegSeparates |
| source/translator/linux/loader.cpp:72-88 | the identity check has no braces, so it guards only the machine switch: a bad identity with a known machine passes, and a good one leaves the recorded machine 0 | a header with a bad identity and machine x86-64: the loader proceeds | check the identity, then the machine | not executed | ElfLoader.MachineAsWritten, ElfLoader.MachineAsWrittenInverted | ElfLoader.MachineChecked |
| source/runtime/ir/instr.cpp:309-319 | Validate's loop goes on over all four slots and reads `ir_info.arg_types[arg_index]` each time, past the end of the vector once the listed types run out | an opcode whose meta types are [Value, Value], with two Value arguments and slots 2 and 3 Void: at slot 2 the loop reads `arg_types[2]`, past the two listed types (undefined behaviour, taken as a failed check) | check the listed types in order, then require every remaining slot to be Void | not executed | IrInst.ValidateSlotsAsWritten, IrInst.ValidateSlotsReadsPast | IrInst.ValidateSlots, IrInst.ValidateSlotsIff, IrInst.InstPool.WalkSlots |
| source/runtime/ir/hir_builder.cpp:118-128 | the Params branch of AppendInst calls `params.Destroy()` on a reference to the instruction's own argument (`Get<Params>` returns `T&`), which frees every node and leaves `first_param` pointing at the freed head | an instruction with a Params argument holding one parameter: after AppendInst, DestroyArg of that slot (instr.cpp:262-268) walks from `first_param` into the freed node and frees it a second time | register the uses and keep the list, which the instruction still owns | not executed | HirBuilder.RegisterParamsAsWritten, IrArgs.ParamList.Destroy | HirBuilder.HIRFunction.AppendInst, IrArgs.ParamList.Values |
