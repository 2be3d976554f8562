# RISC-V bistro trampoline, modelled in Dafny

UCM's bistro ("binary instrumentation") layer hooks a loaded function by
overwriting its entry with a short trampoline that jumps to a replacement.
On RISC-V, `ucm_bistro_patch` (src/ucm/bistro/bistro_riscv64.c) does this in
four steps:

1. It takes the byte distance `delta = hook - func_ptr`.
2. It splits the distance into `hi = delta & (0xFFFFF << 12)` and
   `lo = delta & 0xFFF`.
3. It builds the two-word patch `AUIPC(hi, X31)`, `JALR(X31, X1, lo)`.
4. It refuses a non-NULL `orig_func_p` with `UCS_ERR_UNSUPPORTED`.
   Otherwise it takes a restore point over the patch site and applies the
   patch. Both collaborators' statuses are passed back unchanged.

The model has six modules:

- `Bits` (bits.dfy): unbounded integers standing for the C bit patterns.
  It defines `&`, `|` and `<<` on naturals, the 32-bit store, the 64-bit
  wrap-around and two's-complement readings.
- `LittleEndian` (little_endian.dfy): the byte image of packed 32-bit
  words, with both round trips.
- `RiscV` (riscv.dfy): the decoder and executor of AUIPC and JALR. It
  follows sections 2.2 to 2.5 of the RISC-V Unprivileged ISA (version
  20191213), widened to RV64 as in chapter 5. It decodes and executes the
  words the encoder builds.
- `BistroEncoder` (bistro_encoder.dfy): the source's delta, masks, macros
  and trampoline. It proves where the trampoline jumps when run on
  `RiscV`. It also holds the corrected, rounded split (see Findings).
- `BistroLayout` (bistro_layout.dfy): the five-word `ucm_bistro_patch_t`
  that bistro_riscv64.h declares, with its 20-byte packed layout.
- `BistroPatch` (bistro_patch.dfy): the call protocol of `ucm_bistro_patch`.
  It is a class whose methods record each collaborator call in a ghost log.
  The method `Patch` is proved against the specification function
  `PatchOutcome`.

Three points where the code is not what RISC-V practice or the header
would suggest; the model follows the code:

- The code does not add 0x800 before taking `hi`, the usual rounding when
  the low fragment is sign-extended by JALR. The model does not add it
  either (see Findings).
- The code always emits the two-word AUIPC/JALR form, for any delta.
  The header's field names suggest a longer form that no code here
  builds. `TrampolineRuns` states where the two-word form jumps for every
  delta, including those beyond its 32-bit reach.
- The header declares `ucm_bistro_patch_t` with fields `uhi, ulo, sli, lhi,
  jalr` (20 bytes). The code initialises `.auipc` and `.jalr`; the header
  declares `jalr` but no `auipc`, so with the header as given the
  initialiser does not compile. The model takes the two-word value the
  initialiser implies, `.auipc` first: `sizeof(patch)` is taken to be 8,
  and both collaborators receive it. The header's five-word layout is
  modelled on its own in `BistroLayout`.

C integers are modelled as unbounded integers with every truncation
written out: `Wrap64` for `ptrdiff_t` and pointer arithmetic, `Truncate32`
for the store into a `uint32_t` field. `Signed32` and `Signed64` give the
two's-complement reading.

## Model

| member | source | states |
|---|---|---|
| BistroEncoder.Delta | src/ucm/bistro/bistro_riscv64.c:56 | The displacement is the 64-bit pattern that, added to `func_ptr` modulo 2^64, gives `hook`. |
| BistroEncoder.HiMask | src/ucm/bistro/bistro_riscv64.c:57 | The constant has no contract of its own; `HiMaskFromLiteral` states that it is the sign-extended value of the literal `0xFFFFF << 12`. |
| BistroEncoder.Hi | src/ucm/bistro/bistro_riscv64.c:57 | No contract of its own; `HiValue` states its value (the delta with bits 11..0 cleared). |
| BistroEncoder.Lo | src/ucm/bistro/bistro_riscv64.c:58 | No contract of its own; `LoValue` states its value (the delta's low 12 bits). |
| BistroEncoder.AuipcMacro | src/ucm/bistro/bistro_riscv64.c:43 | No contract of its own; `AuipcMacroValue` states its value for the operands the encoder passes. |
| BistroEncoder.JalrMacro | src/ucm/bistro/bistro_riscv64.c:49 | No contract of its own; `JalrMacroValue` states its value for the operands the encoder passes. |
| BistroEncoder.HiMaskFromLiteral | src/ucm/bistro/bistro_riscv64.c:57 | The `int` literal `0xFFFFF << 12` holds -4096 and sign-extends to the 64-bit mask with bits 63..12 set. |
| BistroEncoder.HiValue | src/ucm/bistro/bistro_riscv64.c:57 | `hi` is the delta with its low 12 bits cleared. |
| BistroEncoder.LoValue | src/ucm/bistro/bistro_riscv64.c:58 | `lo` is the delta's low 12 bits. |
| BistroEncoder.SplitIsLossless | src/ucm/bistro/bistro_riscv64.c:56-58 | `hi` has its low 12 bits zero and `lo <= 0xFFF`. The fragments are disjoint (`hi & lo == 0`) and together give the delta (`hi \| lo == delta`). |
| BistroEncoder.StoredSplitIsLossless | src/ucm/bistro/bistro_riscv64.c:56-62 | Stored in 32 bits, `hi` keeps bits 31..12 of the delta, and `hi \| lo` gives back the delta's low 32 bits. |
| BistroEncoder.LowBits | src/ucm/bistro/bistro_riscv64.c:57-58 | Bits 11..0 of the 64-bit delta are those of its 32-bit store, and clearing them commutes with the store. |
| BistroEncoder.AuipcMacroValue | src/ucm/bistro/bistro_riscv64.c:43 | For an immediate with bits 11..0 clear, `AUIPC(imm, X31)` has no overlapping fields: its value is `imm + 0xF97`. |
| BistroEncoder.JalrMacroValue | src/ucm/bistro/bistro_riscv64.c:49 | For a 12-bit immediate, `JALR(X31, X1, imm)` has no overlapping fields: its value is `imm * 2^20 + 0xF80E7`. |
| BistroEncoder.AuipcFields | src/ucm/bistro/bistro_riscv64.c:61 | The stored AUIPC word decodes to opcode 0x17 and rd X31, with bits 31..12 equal to those of `hi`. |
| BistroEncoder.JalrFields | src/ucm/bistro/bistro_riscv64.c:62 | The stored JALR word decodes to opcode 0x67, rd X1, funct3 0, rs1 X31 and immediate `lo`. |
| BistroEncoder.Assemble | src/ucm/bistro/bistro_riscv64.c:60-63 | The patch initialiser's two words decode, field by field, to the AUIPC and JALR with the given fragments. |
| BistroEncoder.Encode | src/ucm/bistro/bistro_riscv64.c:56-63 | The AUIPC has opcode 0x17, rd 31 and bits 31..12 of the delta. The JALR has opcode 0x67, rd 1, funct3 0, bits 11..0 of the delta, and the AUIPC's destination as its base register. |
| BistroEncoder.Image | src/ucm/bistro/bistro_riscv64.c:60-63 | The patch occupies 8 bytes, which read back as the AUIPC word then the JALR word. |
| BistroEncoder.EncodedOffset | src/ucm/bistro/bistro_riscv64.c:56-62 | The decoded immediates of the pair add up to the signed low 32 bits of the delta, less 0x1000 when bit 11 is set. |
| BistroEncoder.RunCallPair | src/ucm/bistro/bistro_riscv64.c:60-63 | Any AUIPC-X31 / JALR-X31-link-X1 pair jumps to `pc + offset` with bit 0 cleared. It leaves `pc + 8` in X1 and the upper part in X31, and no other register changes. |
| BistroEncoder.TrampolineRuns | src/ucm/bistro/bistro_riscv64.c:56-63 | For every delta, the trampoline jumps by the signed low 32 bits less the bit-11 loss. It links `pc + 8` in X1 and clobbers only X31. |
| BistroEncoder.Landing | src/ucm/bistro/bistro_riscv64.c:56 | From `func_ptr`, an offset falling `loss` short of the delta lands at `hook - loss`. |
| BistroEncoder.CallPairLanding | src/ucm/bistro/bistro_riscv64.c:60-63 | A call pair at `func_ptr` whose immediates fall `loss` short of the delta jumps to `hook - loss` with bit 0 cleared. |
| BistroEncoder.NearRangeSigned | src/ucm/bistro/bistro_riscv64.c:56 | Within a signed 32-bit distance, the low 32 bits of the delta carry all of it. |
| BistroEncoder.TrampolineTarget | src/ucm/bistro/bistro_riscv64.c:56-63 | Within the 32-bit reach, the trampoline at `func_ptr` jumps to `hook`, or to `hook - 0x1000` when delta bit 11 is set. |
| BistroEncoder.LossIff | src/ucm/bistro/bistro_riscv64.c:57-58 | Landing 0 or 0x1000 below the hook reaches the hook exactly when the loss is 0. |
| BistroEncoder.ReachesHookIff | src/ucm/bistro/bistro_riscv64.c:56-63 | Within the 32-bit reach, the trampoline reaches the hook if and only if delta bit 11 is clear. |
| BistroEncoder.JumpToSelf | src/ucm/bistro/bistro_riscv64.c:56-63 | A hook equal to `func_ptr` (delta 0) gives a jump to itself. |
| BistroEncoder.ReachesHookMegabyteAway | src/ucm/bistro/bistro_riscv64.c:56-63 | A hook 0x100000 bytes past `func_ptr` is reached exactly. |
| BistroEncoder.MissesHookAtBit11 | src/ucm/bistro/bistro_riscv64.c:57-58 | With `func_ptr` 0x10000 and hook 0x10800, the trampoline jumps to 0xF800, not to the hook. |
| BistroEncoder.ExampleDelta | src/ucm/bistro/bistro_riscv64.c:56 | The example's delta is 0x800, within reach, with bit 11 set. |
| BistroEncoder.HiRounded | src/ucm/bistro/bistro_riscv64.c:57 | The corrected upper fragment, `hi` taken from `delta + 0x800`. No contract of its own; `RoundedFragments` states its value. |
| BistroEncoder.RoundedFragments | src/ucm/bistro/bistro_riscv64.c:57-58 | The corrected upper fragment has bits 11..0 clear and holds bits 31..12 of `delta + 0x800`. The low fragment is unchanged. |
| BistroEncoder.EncodeRounded | src/ucm/bistro/bistro_riscv64.c:56-63 | The corrected pair has the same opcodes and registers. Its AUIPC carries bits 31..12 of `delta + 0x800`. |
| BistroEncoder.RoundedOffset | src/ucm/bistro/bistro_riscv64.c:57-58 | The corrected pair's immediates add up to the signed delta, for every delta in [-2^31 - 0x800, 2^31 - 0x800). |
| BistroEncoder.SignedLowBits | src/ucm/bistro/bistro_riscv64.c:56 | The low bits of the delta pattern are those of the signed distance it stands for. |
| BistroEncoder.RoundedSplitOffset | src/ucm/bistro/bistro_riscv64.c:57-58 | The upper part of `s + 0x800`, plus the sign-extended low 12 bits of `s`, is `s`. |
| BistroEncoder.CorrectedReachesHook | src/ucm/bistro/bistro_riscv64.c:56-63 | With the rounding, the trampoline at `func_ptr` reaches the hook for every delta the pair covers. |
| RiscV.UTypeFields | src/ucm/bistro/bistro_riscv64.c:43 | A U-type word is exactly its upper immediate, rd and opcode, with no overlap. |
| RiscV.ITypeFields | src/ucm/bistro/bistro_riscv64.c:49 | An I-type word is exactly its immediate, rs1, funct3, rd and opcode, with no overlap. |
| RiscV.UTypeOf | src/ucm/bistro/bistro_riscv64.c:43 | A word assembled from in-range U-type fields decodes to those fields. |
| RiscV.ITypeOf | src/ucm/bistro/bistro_riscv64.c:49 | A word assembled from in-range I-type fields decodes to those fields. |
| RiscV.Step | src/ucm/bistro/bistro_riscv64.c:42-49 | One instruction executes exactly when it is an AUIPC or a JALR with funct3 0, and the register file stays well formed. |
| RiscV.RunAuipcJalr | src/ucm/bistro/bistro_riscv64.c:60-63 | An AUIPC into rd followed by a JALR from rd jumps to `pc + ImmU + ImmI` with bit 0 cleared. It writes `pc + ImmU` to rd and `pc + 8` to the link register, and no other register changes. |
| RiscV.WrapAdd | src/ucm/bistro/bistro_riscv64.c:56 | Wrapping after each addition is the same as wrapping once at the end. |
| LittleEndian.BytesOfWord | src/ucm/bistro/bistro_riscv64.h:19-25 | Every four bytes are the little-endian image of exactly one word. |
| LittleEndian.UnpackPack | src/ucm/bistro/bistro_riscv64.h:19-25 | Reading a packed image gives back the words packed. |
| LittleEndian.PackUnpack | src/ucm/bistro/bistro_riscv64.h:19-25 | Packing the words read from an image gives back the image. |
| BistroLayout.Layout | src/ucm/bistro/bistro_riscv64.h:19-25 | The descriptor is 20 bytes, and field i (`uhi, ulo, sli, lhi, jalr` in order) sits at byte offset 4·i. |
| BistroLayout.Parse | src/ucm/bistro/bistro_riscv64.h:19-25 | A byte string is read as a descriptor if and only if it is 20 bytes long. |
| BistroLayout.ParseLayout | src/ucm/bistro/bistro_riscv64.h:19-25 | Reading a descriptor's layout gives the descriptor back. |
| BistroLayout.LayoutParse | src/ucm/bistro/bistro_riscv64.h:19-25 | Any 20 bytes are the layout of the descriptor read from them. |
| BistroPatch.IsErr | src/ucm/bistro/bistro_riscv64.c:72 | `UCS_STATUS_IS_ERR`: a status is an error exactly when it is negative. No contract of its own; `PatchOutcome` and `AppliedIff` state how it steers the call. |
| BistroPatch.PatchBytes | src/ucm/bistro/bistro_riscv64.c:60-63 | The bytes handed to the applier are `sizeof(patch)` = 8 and read back as the encoded AUIPC and JALR. |
| BistroPatch.PatchOutcome | src/ucm/bistro/bistro_riscv64.c:65-76 | A non-NULL `orig_func_p` gives `UCS_ERR_UNSUPPORTED` with no call, and no call means that case. The restore point is requested first, at `func_ptr` with size 8. Apply, at the same address and size, is only ever the second call and only after a non-error restore status. An error restore status is returned after that one call; a non-error one is always followed by the apply call with the encoded bytes, whose status is returned. `UCS_OK` implies both collaborators succeeded. |
| BistroPatch.AppliedIff | src/ucm/bistro/bistro_riscv64.c:67-76 | Some call is an apply if and only if `orig_func_p` is NULL and the restore point did not fail. |
| BistroPatch.RestorePointOptional | src/ucm/bistro/bistro_riscv64.h:37-38 | Whatever `rp` is, the status and every call after the restore-point request are the same as with NULL. |
| BistroPatch.Collaborators.CreateRestorePointCall | src/ucm/bistro/bistro_riscv64.c:71 | Appends the request (address, size, `rp`) to the log and returns the manager's status. |
| BistroPatch.Collaborators.ApplyPatchCall | src/ucm/bistro/bistro_riscv64.c:76 | Appends the request (address, bytes, size) to the log and returns the applier's status. |
| BistroPatch.Collaborators.Patch | src/ucm/bistro/bistro_riscv64.c:52-77 | The calls made are exactly `PatchOutcome`'s, in order, and the status returned is `PatchOutcome`'s status. |

## Left out

- The internals of `ucm_bistro_create_restore_point` and `ucm_bistro_apply_patch` (mprotect, memcpy, instruction-cache flush) are calls into code that is not part of this model. They are modelled as collaborators that return a status chosen by the environment and record their arguments in a ghost log. The bytes actually written to memory and the later restore are therefore not modelled.
- The restore point pointer `*rp` that the manager fills in is not modelled. Only the `rp` argument is recorded.
- `UCS_OK = 0`, `UCS_ERR_UNSUPPORTED = -22` and `UCS_STATUS_IS_ERR(s) = s < 0` come from ucs/type/status.h, which is not part of this model. The values are taken as stated.
- The `symbol` parameter is unused by the source and has no counterpart.
- The far-absolute (five-word) and stack-preserving (four-word) forms have no encoder in this source. Only the header's field names hint at one, so no encoding is modelled for them.
- Concurrent execution of the function being patched, the hardware itself and the `dlfcn`/`mman` includes are left out.
- RiscV.Step: JALR's instruction-address-misaligned exception is not modelled (a target with bit 1 set, without the C extension). The decoder covers only AUIPC and JALR, so every other word gives `None`.
- RiscV.RunAuipcJalr: the pair is executed from a register file value. Fetching the words from memory is not modelled. `BistroEncoder.Image` and `BistroPatch.PatchBytes` state which bytes the words occupy.
- BistroPatch.PatchSize: the size 8 and the order `.auipc` then `.jalr` come from the two-word struct the initialiser implies. The header's declared type has no `auipc` field, so `sizeof(patch)` as written is not defined by the code; 8 is an assumption.
- BistroEncoder.Image: lays out the words in the same assumed two-word struct, `.auipc` at offset 0 and `.jalr` at offset 4.
- Only RV64 is modelled. RV32 is not a target of this source.

## Findings

| source | as written | input that shows it | evidently intended | confidence | as-written member | corrected member |
|---|---|---|---|---|---|---|
| src/ucm/bistro/bistro_riscv64.c:57-58 | `hi = delta & (0xFFFFF << 12)` with no rounding, while JALR sign-extends `lo`. Whenever delta bit 11 is set the pair lands 0x1000 bytes below the hook. | `func_ptr` 0x10000, `hook` 0x10800: the jump lands at 0xF800. | Take `hi` from `delta + 0x800`, so the sign-extended `lo` brings the sum back to the delta. The hook is then reached for every delta in [-2^31 - 0x800, 2^31 - 0x800). | not executed | BistroEncoder.MissesHookAtBit11 | BistroEncoder.CorrectedReachesHook |

`BistroEncoder.ReachesHookIff` states the as-written behaviour for every
delta in reach: the hook is reached exactly when bit 11 is clear.
`BistroPatch` keeps the words the source writes. The rounded encoder
`BistroEncoder.EncodeRounded` is the corrected definition, and the
corrected property is proved about it.
