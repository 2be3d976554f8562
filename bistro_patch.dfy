/** `ucm_bistro_patch` on RISC-V: encode the trampoline, refuse a request
    for the original entry point, take a restore point over the patch site,
    then hand the patch bytes to the applier.

    The restore-point manager and the applier are collaborators whose code is
    not part of this model; `Collaborators` stands for them, returning a
    status fixed by the environment and recording every call in a ghost log,
    so that the order and the arguments of the calls can be stated. */
module BistroPatch {
  import opened Bits
  import opened BistroEncoder
  import LittleEndian

  /** `ucs_status_t` values. `UCS_OK` is 0 and errors are negative
      (`UCS_STATUS_IS_ERR`); `UCS_ERR_UNSUPPORTED` is -22. */
  const Ok: int := 0
  const ErrUnsupported: int := -22

  predicate IsErr(status: int)
  {
    status < 0
  }

  /** A pointer argument, as its address; `NULL` is 0. */
  const Null: U64 := 0

  /** `sizeof(patch)`, taken as the two 32-bit words the encoder
      initialises (`.auipc`, then `.jalr`); the header's declared type does
      not have that shape. Both collaborators receive this one size. */
  const PatchSize: nat := 8

  datatype Call =
    | CreateRestorePoint(addr: U64, size: nat, rp: U64)
    | ApplyPatch(addr: U64, bytes: seq<LittleEndian.Byte>, size: nat)

  /** The calls one invocation makes, in order, and the status it returns. */
  datatype Outcome = Outcome(calls: seq<Call>, status: int)

  /** The bytes the patch site receives: the encoded AUIPC/JALR pair for the
      distance from `func_ptr` to `hook`. */
  function PatchBytes(funcPtr: U64, hook: U64): (b: seq<LittleEndian.Byte>)
    ensures |b| == PatchSize
    ensures LittleEndian.Unpack(b) == [Encode(Delta(funcPtr, hook)).auipc, Encode(Delta(funcPtr, hook)).jalr]
  {
    Image(Encode(Delta(funcPtr, hook)))
  }

  /** What `ucm_bistro_patch(func_ptr, hook, symbol, orig_func_p, rp)` does
      when the restore-point manager answers `restoreStatus` and the applier
      answers `applyStatus`:
      - a non-NULL `orig_func_p` is refused with `UCS_ERR_UNSUPPORTED` before
        any call;
      - otherwise the restore point comes first, and the patch is applied only
        if it succeeded, over the same address and size;
      - the status returned is one of the collaborators', unchanged, or the
        refusal. */
  function PatchOutcome(funcPtr: U64, hook: U64, origFuncP: U64, rp: U64,
                        restoreStatus: int, applyStatus: int): (o: Outcome)
    ensures origFuncP != Null <==> o.calls == [] && o.status == ErrUnsupported
    ensures o.calls != [] ==> o.calls[0] == CreateRestorePoint(funcPtr, PatchSize, rp)
    ensures forall i :: 0 <= i < |o.calls| && o.calls[i].ApplyPatch? ==>
              && i == 1 && !IsErr(restoreStatus)
              && o.calls[i] == ApplyPatch(funcPtr, PatchBytes(funcPtr, hook), PatchSize)
    ensures origFuncP == Null ==>
              (o.status == restoreStatus && |o.calls| == 1) || (o.status == applyStatus && |o.calls| == 2)
    ensures origFuncP == Null && IsErr(restoreStatus) ==> |o.calls| == 1 && o.status == restoreStatus
    ensures origFuncP == Null && !IsErr(restoreStatus) ==>
              && |o.calls| == 2
              && o.calls[1] == ApplyPatch(funcPtr, PatchBytes(funcPtr, hook), PatchSize)
              && o.status == applyStatus
    ensures o.status == Ok ==> origFuncP == Null && !IsErr(restoreStatus) && applyStatus == Ok
  {
    if origFuncP != Null then
      Outcome([], ErrUnsupported)
    else if IsErr(restoreStatus) then
      Outcome([CreateRestorePoint(funcPtr, PatchSize, rp)], restoreStatus)
    else
      Outcome([CreateRestorePoint(funcPtr, PatchSize, rp),
               ApplyPatch(funcPtr, PatchBytes(funcPtr, hook), PatchSize)], applyStatus)
  }

  /** The patch is applied exactly when the original is not requested and
      the restore point was taken. */
  lemma AppliedIff(funcPtr: U64, hook: U64, origFuncP: U64, rp: U64, restoreStatus: int, applyStatus: int)
    ensures (exists i :: 0 <= i < |PatchOutcome(funcPtr, hook, origFuncP, rp, restoreStatus, applyStatus).calls|
               && PatchOutcome(funcPtr, hook, origFuncP, rp, restoreStatus, applyStatus).calls[i].ApplyPatch?)
        <==> origFuncP == Null && !IsErr(restoreStatus)
  {
    var o := PatchOutcome(funcPtr, hook, origFuncP, rp, restoreStatus, applyStatus);
    if origFuncP == Null && !IsErr(restoreStatus) {
      assert o.calls[1].ApplyPatch?;
    }
  }

  /** `rp` is optional: whatever it is, only the restore-point request
      carries it, and the status and the bytes applied do not depend on it. */
  lemma RestorePointOptional(funcPtr: U64, hook: U64, origFuncP: U64, rp: U64,
                             restoreStatus: int, applyStatus: int)
    ensures PatchOutcome(funcPtr, hook, origFuncP, rp, restoreStatus, applyStatus).status
         == PatchOutcome(funcPtr, hook, origFuncP, Null, restoreStatus, applyStatus).status
    ensures |PatchOutcome(funcPtr, hook, origFuncP, rp, restoreStatus, applyStatus).calls|
         == |PatchOutcome(funcPtr, hook, origFuncP, Null, restoreStatus, applyStatus).calls|
    ensures forall i :: 1 <= i < |PatchOutcome(funcPtr, hook, origFuncP, rp, restoreStatus, applyStatus).calls| ==>
              (PatchOutcome(funcPtr, hook, origFuncP, rp, restoreStatus, applyStatus).calls[i]
               == PatchOutcome(funcPtr, hook, origFuncP, Null, restoreStatus, applyStatus).calls[i])
  {
  }

  /** The restore-point manager and the applier, as seen from the patch
      function. */
  class Collaborators {
    /** The statuses the two collaborators return. */
    const restoreReply: int
    const applyReply: int
    /** Every call made to them, oldest first. */
    ghost var log: seq<Call>

    constructor (restoreReply: int, applyReply: int)
      ensures this.restoreReply == restoreReply && this.applyReply == applyReply
      ensures log == []
    {
      this.restoreReply := restoreReply;
      this.applyReply := applyReply;
      log := [];
    }

    /** `ucm_bistro_create_restore_point(addr, len, rp)`. */
    method CreateRestorePointCall(addr: U64, size: nat, rp: U64) returns (status: int)
      modifies this`log
      ensures log == old(log) + [CreateRestorePoint(addr, size, rp)]
      ensures status == restoreReply
    {
      log := log + [CreateRestorePoint(addr, size, rp)];
      status := restoreReply;
    }

    /** `ucm_bistro_apply_patch(dst, patch, len)`: copies `len` bytes of
        `patch`. */
    method ApplyPatchCall(addr: U64, bytes: seq<LittleEndian.Byte>, size: nat) returns (status: int)
      requires |bytes| == size
      modifies this`log
      ensures log == old(log) + [ApplyPatch(addr, bytes, size)]
      ensures status == applyReply
    {
      log := log + [ApplyPatch(addr, bytes, size)];
      status := applyReply;
    }

    /** `ucm_bistro_patch`. The `symbol` argument is not used. */
    method Patch(funcPtr: U64, hook: U64, origFuncP: U64, rp: U64) returns (status: int)
      modifies this`log
      ensures log == old(log) + PatchOutcome(funcPtr, hook, origFuncP, rp, restoreReply, applyReply).calls
      ensures status == PatchOutcome(funcPtr, hook, origFuncP, rp, restoreReply, applyReply).status
    {
      var patch := PatchBytes(funcPtr, hook);
      if origFuncP != Null {
        return ErrUnsupported;
      }
      status := CreateRestorePointCall(funcPtr, PatchSize, rp);
      if IsErr(status) {
        return status;
      }
      status := ApplyPatchCall(funcPtr, patch, PatchSize);
    }
  }
}
