/**
 * Argon2i password hashing: a destination guard, a salt size guard and a
 * memory-limit guard, in that order, then one native call on the buffers made
 * usable for the native resolver, its status mapped through checkStatus.
 * The interactive limits are read from the native library, so they are
 * parameters here; so is the status the native call returns.
 */
module Argon2i {
  import opened Runtime
  import opened JniBuffer
  import opened Stodium

  /** Argon2i.SALTBYTES, a literal rather than a native lookup. */
  const SALTBYTES: int32 := 16

  /**
   * pwhashArgon2i(dstKey, srcPwd, srcSalt, opsLimit, memLimit). Unlike the
   * Curve25519 wrappers it does not slice() its arguments.
   */
  function PwhashArgon2i(dstKey: BufferState, srcPwd: BufferState, srcSalt: BufferState,
                         opsLimit: int32, memLimit: int32, status: int32): (g: Gate)
    requires dstKey.Valid() && srcPwd.Valid() && srcSalt.Valid()
    ensures !dstKey.isDirect && dstKey.isReadOnly ==> g == Rejected(ReadOnlyBufferException)
    ensures g.Called? <==>
              (dstKey.isDirect || !dstKey.isReadOnly) && srcSalt.Remaining() == 16 &&
              memLimit > 0 && IsPowerOfTwo(memLimit)
    ensures g.Rejected? && (dstKey.isDirect || !dstKey.isReadOnly) ==> g.e == ConstraintViolationException
    ensures g.Called? ==>
              g.fn == "crypto_pwhash" && g.scalars == [opsLimit, memLimit] &&
              g.buffers == [dstKey, UsableState(srcPwd), UsableState(srcSalt)] &&
              g.Outcome() == CheckStatus(status)
  {
    WritableDestinationNotCopied(dstKey);
    Guard(CheckDestinationWritable(dstKey),
    Guard(CheckSize(srcSalt.Remaining(), SALTBYTES),
    Guard(CheckPow2(memLimit),
    Called("crypto_pwhash", [UsableState(dstKey), UsableState(srcPwd), UsableState(srcSalt)],
           [opsLimit, memLimit], status))))
  }

  /**
   * The three buffers as the caller holds them once pwhashArgon2i returns.
   * A rejected call touches none. A call that reaches the native code has
   * passed each argument itself, not a slice(), to ensureUsableByteBuffer,
   * whose put() drains a read-only heap srcPwd or srcSalt; dstKey keeps its
   * position and limit, and its block holds `written`, what the native code
   * and the copy-back of its release left there.
   */
  function PwhashArgon2iCallers(dstKey: BufferState, srcPwd: BufferState, srcSalt: BufferState,
                                opsLimit: int32, memLimit: int32, status: int32,
                                written: seq<byte>): (after: seq<BufferState>)
    requires dstKey.Valid() && srcPwd.Valid() && srcSalt.Valid()
    requires |written| == |dstKey.bytes|
    ensures |after| == 3 && after[0].Valid() && after[0] == dstKey.(bytes := after[0].bytes)
    ensures after[0].bytes == (if PwhashArgon2i(dstKey, srcPwd, srcSalt, opsLimit, memLimit, status).Called?
                               then written else dstKey.bytes)
    ensures after[1].bytes == srcPwd.bytes && after[2].bytes == srcSalt.bytes
    ensures after[1] == srcPwd <==>
              PwhashArgon2i(dstKey, srcPwd, srcSalt, opsLimit, memLimit, status).Rejected? ||
              srcPwd.isDirect || srcPwd.HasArray() || srcPwd.Remaining() == 0
    ensures after[2] == srcSalt <==>
              PwhashArgon2i(dstKey, srcPwd, srcSalt, opsLimit, memLimit, status).Rejected? ||
              srcSalt.isDirect || srcSalt.HasArray()
  {
    if PwhashArgon2i(dstKey, srcPwd, srcSalt, opsLimit, memLimit, status).Rejected? then
      [dstKey, srcPwd, srcSalt]
    else
      WritableDestinationNotCopied(dstKey);
      [ConsumedState(dstKey).(bytes := written), ConsumedState(srcPwd), ConsumedState(srcSalt)]
  }

  /**
   * A read-only heap password with bytes remaining, hashed successfully,
   * comes back with remaining() == 0: the caller sees its password consumed
   * although the call only reads it.
   */
  lemma PwhashArgon2iDrainsPassword(dstKey: BufferState, srcPwd: BufferState, srcSalt: BufferState,
                                    opsLimit: int32, memLimit: int32, status: int32, written: seq<byte>)
    requires dstKey.Valid() && srcPwd.Valid() && srcSalt.Valid() && |written| == |dstKey.bytes|
    requires PwhashArgon2i(dstKey, srcPwd, srcSalt, opsLimit, memLimit, status).Called?
    requires !srcPwd.isDirect && srcPwd.isReadOnly && srcPwd.Remaining() > 0
    ensures PwhashArgon2iCallers(dstKey, srcPwd, srcSalt, opsLimit, memLimit, status, written)[1].Remaining() == 0
    ensures PwhashArgon2iCallers(dstKey, srcPwd, srcSalt, opsLimit, memLimit, status, written)[2].Remaining() == 0 <==>
              !srcSalt.isDirect && srcSalt.isReadOnly
  {
  }

  /**
   * pwhashArgon2i(dstKey, buff, buff, ...): one buffer passed as both the
   * password and the salt. The salt check sees it whole; then the password
   * is made usable first, and a read-only heap buffer is drained by that
   * copy before the salt's copy is made from what is left.
   */
  function PwhashArgon2iShared(dstKey: BufferState, buff: BufferState,
                               opsLimit: int32, memLimit: int32, status: int32): (g: Gate)
    requires dstKey.Valid() && buff.Valid()
    ensures g.Called? <==> PwhashArgon2i(dstKey, buff, buff, opsLimit, memLimit, status).Called?
    ensures g.Rejected? ==> g == PwhashArgon2i(dstKey, buff, buff, opsLimit, memLimit, status)
    ensures g.Called? ==>
              g.fn == "crypto_pwhash" && g.scalars == [opsLimit, memLimit] &&
              g.buffers == [dstKey, UsableState(buff), UsableState(ConsumedState(buff))]
    ensures buff.isDirect || buff.HasArray() ==> g == PwhashArgon2i(dstKey, buff, buff, opsLimit, memLimit, status)
  {
    WritableDestinationNotCopied(dstKey);
    Guard(CheckDestinationWritable(dstKey),
    Guard(CheckSize(buff.Remaining(), SALTBYTES),
    Guard(CheckPow2(memLimit),
    Called("crypto_pwhash",
           [UsableState(dstKey), UsableState(buff), UsableState(ConsumedState(buff))],
           [opsLimit, memLimit], status))))
  }

  /**
   * A read-only heap buffer with 16 bytes remaining, passed as both
   * password and salt, passes the salt check, but the native code gets a
   * 16-byte password and an empty salt: taking the two as separate buffers
   * would hand it the 16 salt bytes.
   */
  lemma PwhashArgon2iSharedEmptiesSalt(dstKey: BufferState, buff: BufferState,
                                       opsLimit: int32, memLimit: int32, status: int32)
    requires dstKey.Valid() && buff.Valid()
    requires !buff.isDirect && buff.isReadOnly && buff.Remaining() == 16
    requires PwhashArgon2iShared(dstKey, buff, opsLimit, memLimit, status).Called?
    ensures var g := PwhashArgon2iShared(dstKey, buff, opsLimit, memLimit, status);
            g.buffers[1].Remaining() == 16 && g.buffers[2].Remaining() == 0
    ensures PwhashArgon2i(dstKey, buff, buff, opsLimit, memLimit, status).buffers[2].Remaining() == 16
  {
  }

  /**
   * pwhashArgon2i(dstKey, srcPwd, srcSalt): the five-argument form with
   * OPSLIMIT_INTERACTIVE and MEMLIMIT_INTERACTIVE.
   */
  function PwhashArgon2iInteractive(dstKey: BufferState, srcPwd: BufferState, srcSalt: BufferState,
                                    opsLimitInteractive: int32, memLimitInteractive: int32,
                                    status: int32): (g: Gate)
    requires dstKey.Valid() && srcPwd.Valid() && srcSalt.Valid()
    ensures g.Called? <==>
              (dstKey.isDirect || !dstKey.isReadOnly) && srcSalt.Remaining() == SALTBYTES &&
              memLimitInteractive > 0 && IsPowerOfTwo(memLimitInteractive)
    ensures g.Called? ==> g.scalars == [opsLimitInteractive, memLimitInteractive]
    ensures g == PwhashArgon2i(dstKey, srcPwd, srcSalt, opsLimitInteractive, memLimitInteractive, status)
  {
    PwhashArgon2i(dstKey, srcPwd, srcSalt, opsLimitInteractive, memLimitInteractive, status)
  }

  /**
   * A writable heap dstKey with 32 bytes remaining from position 1 passes
   * every guard, but the native resolver exposes its bytes from index 0:
   * the key is written one byte early, over a byte the caller did not offer.
   */
  lemma PwhashArgon2iIgnoresPosition(salt: seq<byte>)
    requires |salt| == 16
    ensures var dstKey := BufferState(false, false, [7] + Zeros(32), 0, 33, 1, 33);
            var s := BufferState(false, false, salt, 0, 16, 0, 16);
            var g := PwhashArgon2i(dstKey, s, s, 1, 8, 0);
            dstKey.Valid() && s.Valid() && g.Called? && g.Outcome() == Normal &&
            ResolvedRegion(g.buffers[0]) != dstKey.Window()
  {
    var dstKey := BufferState(false, false, [7] + Zeros(32), 0, 33, 1, 33);
    assert IsPowerOfTwo(8) by {
      assert 8 == Pow2(3);
    }
    assert ResolvedRegion(dstKey)[0] == 7 && dstKey.Window()[0] == 0;
  }

  /**
   * pwhashArgon2i handing over slice()s, as the Curve25519 wrappers do: the
   * same guards, and the native code sees exactly each buffer's remaining
   * bytes.
   */
  function PwhashArgon2iSliced(dstKey: BufferState, srcPwd: BufferState, srcSalt: BufferState,
                               opsLimit: int32, memLimit: int32, status: int32): (g: Gate)
    requires dstKey.Valid() && srcPwd.Valid() && srcSalt.Valid()
    ensures g.Called? <==>
              (dstKey.isDirect || !dstKey.isReadOnly) && srcSalt.Remaining() == 16 &&
              memLimit > 0 && IsPowerOfTwo(memLimit)
    ensures g.Rejected? ==> g == PwhashArgon2i(dstKey, srcPwd, srcSalt, opsLimit, memLimit, status)
    ensures g.Called? ==>
              |g.buffers| == 3 && g.buffers[0] == SliceState(dstKey) &&
              HandsOver(g.buffers[0], dstKey) && HandsOver(g.buffers[1], srcPwd) &&
              HandsOver(g.buffers[2], srcSalt) && g.Outcome() == CheckStatus(status)
  {
    SlicedHandsOver(dstKey);
    SlicedHandsOver(srcPwd);
    SlicedHandsOver(srcSalt);
    WritableDestinationNotCopied(SliceState(dstKey));
    Guard(CheckDestinationWritable(dstKey),
    Guard(CheckSize(srcSalt.Remaining(), SALTBYTES),
    Guard(CheckPow2(memLimit),
    Called("crypto_pwhash",
           [UsableState(SliceState(dstKey)), UsableState(SliceState(srcPwd)), UsableState(SliceState(srcSalt))],
           [opsLimit, memLimit], status))))
  }

  /**
   * With slice(), ensureUsableByteBuffer drains a slice, not the caller's
   * buffer: the native code still sees the password's and the salt's
   * remaining bytes, and a read-only password's drained copy source is a
   * view over the caller's bytes that is not the caller's own buffer.
   */
  lemma PwhashArgon2iSlicedSparesCallers(dstKey: BufferState, srcPwd: BufferState, srcSalt: BufferState,
                                         opsLimit: int32, memLimit: int32, status: int32)
    requires dstKey.Valid() && srcPwd.Valid() && srcSalt.Valid()
    requires PwhashArgon2iSliced(dstKey, srcPwd, srcSalt, opsLimit, memLimit, status).Called?
    ensures var g := PwhashArgon2iSliced(dstKey, srcPwd, srcSalt, opsLimit, memLimit, status);
            HandsOver(g.buffers[1], srcPwd) && HandsOver(g.buffers[2], srcSalt)
    ensures ConsumedState(SliceState(srcPwd)).bytes == srcPwd.bytes
    ensures !srcPwd.isDirect && srcPwd.isReadOnly && srcPwd.Remaining() > 0 ==>
              ConsumedState(SliceState(srcPwd)).Remaining() == 0 &&
              ConsumedState(SliceState(srcPwd)) != srcPwd
  {
  }
}
