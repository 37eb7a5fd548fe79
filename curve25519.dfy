/**
 * Curve25519: size guards in a fixed order, then one native scalar
 * multiplication on slice()s of the arguments made usable for the native
 * resolver, its status mapped through checkStatus. SCALAR_BYTES is read from
 * the native library, so it is a parameter here; so is the status the native
 * call returns.
 */
module Curve25519 {
  import opened Runtime
  import opened JniBuffer
  import opened Stodium

  /** The buffers a wrapper hands over after slice() and ensureUsableByteBuffer. */
  function Prepared(buffers: seq<BufferState>): (r: seq<BufferState>)
    requires forall i | 0 <= i < |buffers| :: buffers[i].Valid()
    ensures |r| == |buffers|
    ensures forall i | 0 <= i < |buffers| :: HandsOver(r[i], buffers[i])
    ensures forall i | 0 <= i < |buffers| :: r[i] == UsableState(SliceState(buffers[i]))
  {
    if buffers == [] then []
    else
      SlicedHandsOver(buffers[0]);
      [UsableState(SliceState(buffers[0]))] + Prepared(buffers[1..])
  }

  /**
   * scalarMult(dst, src, groupElement): each of the three must have
   * SCALAR_BYTES remaining, checked in that order, before the native call.
   */
  function ScalarMult(scalarBytes: int32, dst: BufferState, src: BufferState, groupElement: BufferState,
                      status: int32): (g: Gate)
    requires dst.Valid() && src.Valid() && groupElement.Valid()
    ensures g.Called? <==>
              dst.Remaining() == scalarBytes && src.Remaining() == scalarBytes &&
              groupElement.Remaining() == scalarBytes
    ensures g.Rejected? ==> g.e == ConstraintViolationException
    ensures g.Called? ==>
              g.fn == "crypto_scalarmult_curve25519" && |g.buffers| == 3 && g.scalars == [] &&
              HandsOver(g.buffers[0], dst) && HandsOver(g.buffers[1], src) &&
              HandsOver(g.buffers[2], groupElement) &&
              g.Outcome() == CheckStatus(status)
  {
    Guard(CheckSize(dst.Remaining(), scalarBytes),
    Guard(CheckSize(src.Remaining(), scalarBytes),
    Guard(CheckSize(groupElement.Remaining(), scalarBytes),
    Called("crypto_scalarmult_curve25519", Prepared([dst, src, groupElement]), [], status))))
  }

  /** scalarMultBase(dst, src): only dst and src are checked, in that order. */
  function ScalarMultBase(scalarBytes: int32, dst: BufferState, src: BufferState, status: int32): (g: Gate)
    requires dst.Valid() && src.Valid()
    ensures g.Called? <==> dst.Remaining() == scalarBytes && src.Remaining() == scalarBytes
    ensures g.Rejected? ==> g.e == ConstraintViolationException
    ensures g.Called? ==>
              g.fn == "crypto_scalarmult_curve25519_base" && |g.buffers| == 2 && g.scalars == [] &&
              HandsOver(g.buffers[0], dst) && HandsOver(g.buffers[1], src) &&
              g.Outcome() == CheckStatus(status)
  {
    Guard(CheckSize(dst.Remaining(), scalarBytes),
    Guard(CheckSize(src.Remaining(), scalarBytes),
    Called("crypto_scalarmult_curve25519_base", Prepared([dst, src]), [], status)))
  }

  /** x25519PrivateToPublic(dstPublic, srcPrivate): scalarMultBase. */
  function X25519PrivateToPublic(scalarBytes: int32, dstPublic: BufferState, srcPrivate: BufferState,
                                 status: int32): (g: Gate)
    requires dstPublic.Valid() && srcPrivate.Valid()
    ensures g.Called? <==> dstPublic.Remaining() == scalarBytes && srcPrivate.Remaining() == scalarBytes
    ensures g.Called? ==>
              g.fn == "crypto_scalarmult_curve25519_base" && |g.buffers| == 2 &&
              HandsOver(g.buffers[0], dstPublic) && HandsOver(g.buffers[1], srcPrivate)
    ensures g == ScalarMultBase(scalarBytes, dstPublic, srcPrivate, status)
  {
    ScalarMultBase(scalarBytes, dstPublic, srcPrivate, status)
  }

  /**
   * A read-only heap dst of the right size passes every guard of scalarMult
   * and scalarMultBase, but what the native code receives for it is a fresh
   * direct copy, which Java drops: whenever the status maps to a normal
   * return, the call returns normally and dst is not written.
   */
  lemma ScalarMultDropsReadOnlyOutput(scalarBytes: int32, dst: BufferState, src: BufferState,
                                      groupElement: BufferState, status: int32)
    requires dst.Valid() && src.Valid() && groupElement.Valid()
    requires !dst.isDirect && dst.isReadOnly
    requires dst.Remaining() == src.Remaining() == groupElement.Remaining() == scalarBytes
    requires CheckStatus(status) == Normal
    ensures var g := ScalarMult(scalarBytes, dst, src, groupElement, status);
            g.Called? && g.Outcome() == Normal &&
            g.buffers[0].isDirect && g.buffers[0] != SliceState(dst)
    ensures var g := ScalarMultBase(scalarBytes, dst, src, status);
            g.Called? && g.Outcome() == Normal &&
            g.buffers[0].isDirect && g.buffers[0] != SliceState(dst)
  {
  }

  /**
   * scalarMult with the guard checkDestinationWritable adds for an output
   * buffer: a read-only heap dst is refused first, and whenever the native
   * code runs, dst reaches it as itself, so its result lands in dst.
   */
  function ScalarMultChecked(scalarBytes: int32, dst: BufferState, src: BufferState,
                             groupElement: BufferState, status: int32): (g: Gate)
    requires dst.Valid() && src.Valid() && groupElement.Valid()
    ensures !dst.isDirect && dst.isReadOnly ==> g == Rejected(ReadOnlyBufferException)
    ensures g.Called? <==>
              (dst.isDirect || !dst.isReadOnly) && dst.Remaining() == scalarBytes &&
              src.Remaining() == scalarBytes && groupElement.Remaining() == scalarBytes
    ensures g.Called? ==> |g.buffers| == 3 && g.buffers[0] == SliceState(dst) && HandsOver(g.buffers[0], dst)
  {
    Guard(CheckDestinationWritable(dst), ScalarMult(scalarBytes, dst, src, groupElement, status))
  }

  /** scalarMultBase with the same destination guard. */
  function ScalarMultBaseChecked(scalarBytes: int32, dst: BufferState, src: BufferState, status: int32): (g: Gate)
    requires dst.Valid() && src.Valid()
    ensures !dst.isDirect && dst.isReadOnly ==> g == Rejected(ReadOnlyBufferException)
    ensures g.Called? <==>
              (dst.isDirect || !dst.isReadOnly) && dst.Remaining() == scalarBytes && src.Remaining() == scalarBytes
    ensures g.Called? ==> |g.buffers| == 2 && g.buffers[0] == SliceState(dst) && HandsOver(g.buffers[0], dst)
  {
    Guard(CheckDestinationWritable(dst), ScalarMultBase(scalarBytes, dst, src, status))
  }
}
