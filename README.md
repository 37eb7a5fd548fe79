# libstodium buffer marshalling, modelled in Dafny

libstodium exposes libsodium to Java through `java.nio.ByteBuffer`s. The
Java side checks sizes and flags, copies buffers the native code cannot
reach, and calls a native binding. The native side resolves each
ByteBuffer handle to a pointer and a length (`stodium_get_buffer`), calls
one libsodium primitive, and releases every handle: outputs are written
back, inputs are not.

This project models that layer and proves what it hands to the primitive
and what reaches Java afterwards.

- `runtime.dfy` (module `Runtime`): the JVM as the layer sees it.
  - Memory is a sequence of blocks. A Java `byte[]`, a direct buffer's
    native block and every copy `GetByteArrayElements` hands out are each
    one block.
  - `ByteBuffer` is a class with its mutable position, limit and mark.
    `BufferState` is its state as a value.
  - The JNI lookups and calls the layer uses.
- `jni_buffer.dfy` (module `JniBuffer`): the native helpers.
  - `JNI_OnLoad` and the cached lookups.
  - The `stodium_buffer` record, the resolver and the two release guards.
  - The `AS_*` macros.
  - The primitive as an unknown call that may write only where its
    writable pointers reach.
- `jni_adapters.dfy` (module `JniAdapters`): the bindings.
  - `Marshal` is the pattern every binding follows: resolve in order, call,
    release in order.
  - Generic lemmas say block by block what that pattern leaves in memory.
  - Fourteen bindings instantiate it with their own argument lists and
    release orders, each with lemmas about what they deliver and what they
    keep.
- `stodium.dfy` (module `Stodium`): the Java helpers.
  - The guards (`checkStatus`, `checkSize`, `checkOffsetParams`,
    `checkPow2`, `checkDestinationWritable`).
  - Constant-time comparison and wiping.
  - `ensureUsableByteBuffer`.
  - The one-time `runInit`.
  - `Gate`, which states what a wrapper does: throw, or call a native
    function with given buffers.
- `curve25519.dfy` and `argon2i.dfy`: the two Java wrappers, on `BufferState`
  values.

## Model

| member | source | states |
|---|---|---|
| JniBuffer.JniOnLoad | jni/sodium_jni_buffer.c:79-106 | returns JNI_VERSION_1_6 exactly when the VM offers a 1.6 environment, the ByteBuffer class and its array(), arrayOffset() and remaining() methods; then all four references are cached; otherwise -1: nothing is cached when GetEnv fails, and after a failed lookup the failed (absent) reference stays cached while the lookups after it keep what they held |
| JniBuffer.GetBuffer | jni/sodium_jni_buffer.c:125-157 | NULL gives an empty direct record; a direct buffer gives its address with offset 0 and full capacity; a heap buffer gives a fresh copy of its array with offset arrayOffset() and capacity remaining(); the record stays in bounds, can be released, and describes exactly the region the resolver exposes |
| JniBuffer.ReleaseOutput | jni/sodium_jni_buffer.c:162-169 | a direct record changes nothing; a heap record's copy is written back over its array (mode 0) and no other block changes |
| JniBuffer.ReleaseInput | jni/sodium_jni_buffer.c:174-181 | no block changes, whatever the record: JNI_ABORT drops whatever was written into a copy |
| JniBuffer.SlicedRegionIsWindow | jni/sodium_jni_buffer.c:144-150 | for a slice() of a buffer, the resolved region is exactly the buffer's remaining bytes |
| JniBuffer.HeapRegionIgnoresPosition | jni/sodium_jni_buffer.c:147-150 | for a heap buffer the resolved region starts at arrayOffset(), not at the position, and has remaining() bytes |
| JniBuffer.DirectRegionIgnoresLimits | jni/sodium_jni_buffer.c:136-142 | for a direct buffer the resolved region covers the whole capacity, and its position..limit part is the remaining bytes |
| JniBuffer.Unsigned64 | jni/sodium_jni_buffer.c:615 | a jint cast to a 64-bit unsigned type is congruent to it modulo 2^64, below 2^64, and unchanged when non-negative |
| JniAdapters.StoreLengths | jni/sodium_jni_buffer.c:56 | a primitive storing through AS_OUTPUT_LEN changes only the capacity fields of the records (with a 64-bit size_t) |
| JniAdapters.StoreLength32DropsDirect | jni/sodium_jni_buffer.c:114-120 | as written, on a 32-bit little-endian ABI: a length below 2^32 stored through AS_OUTPUT_LEN(unsigned long long, ...) into a direct record clears is_direct, so the record cannot be released as the direct record it is |
| JniAdapters.Marshal | jni/sodium_jni_buffer.c:249-285 | the binding pattern: each record is what the resolver makes of its handle, the arguments are what the slots derive from the records, the primitive starts from the original memory, and the final memory is what the ordered releases make of what the primitive left; the result is the primitive's status; the release list must give back every resolved handle exactly once, and no handle is left pinned at the end (every binding's own release list is checked against this at its call) |
| JniAdapters.ReleaseEach | jni/sodium_jni_buffer.c:277-282 | the releases in the binding's order leave the memory ReleaseAll describes; starting with every handle pinned, each release gives back a handle still pinned, and none is pinned at the end |
| JniAdapters.UnpinCounts | jni/sodium_jni_buffer.c:257-282 | unpinning a sequence of releases succeeds exactly when each names a held handle and no handle is named twice; what stays held is the handles never named |
| JniAdapters.DistinctUnpin | jni/sodium_jni_buffer.c:257-282 | as many releases as held handles, naming distinct held handles, give all of them back |
| JniAdapters.ReleasedOnceCounts | jni/sodium_jni_buffer.c:257-282 | a release list that passes the exactly-once check unpins every handle, and each handle is named by exactly one release |
| JniAdapters.SlotPasses | jni/sodium_jni_buffer.c:52-56 | each AS_INPUT/AS_OUTPUT argument (plus an optional jint offset) points into a block that holds the handle's bytes, at that offset from arrayOffset() or the base address; AS_INPUT_LEN and AS_OUTPUT_LEN carry the resolved length; casts and NULL pass through |
| JniAdapters.RecordReaches | jni/sodium_jni_buffer.c:52-56 | a resolved record's pointer plus any offset reaches its handle's bytes, and its capacity is the resolved length |
| JniAdapters.ReachesRegion | jni/sodium_jni_buffer.c:52-55 | a pointer that reaches a handle shows the primitive exactly the resolver's region, of AS_INPUT_LEN bytes |
| JniAdapters.LayoutPasses | jni/sodium_jni_buffer.c:249-285 | every argument the macros derive from resolved records is what its slot promises |
| JniAdapters.ArgumentsPass | jni/sodium_jni_buffer.c:249-285 | in any marshalled call every argument is what its slot promises, in terms of the handles themselves |
| JniAdapters.ReleaseAllWritesBack | jni/sodium_jni_buffer.c:162-169 | an output release of a heap record leaves its array holding the copy, unless a later output release targets the same array |
| JniAdapters.ReleaseAllKeeps | jni/sodium_jni_buffer.c:162-181 | a sequence of releases leaves every block that no copy-back targets unchanged |
| JniAdapters.ReleaseAllIgnoresCapacity | jni/sodium_jni_buffer.c:162-181 | releases never read a record's capacity |
| JniAdapters.LengthsLost | jni/sodium_jni_buffer.c:356-387 | whatever lengths the primitive stores through AS_OUTPUT_LEN, the memory after the releases is the same: the output length never reaches Java |
| JniAdapters.CopyBackWins | jni/sodium_jni_buffer.c:162-169 | for heap buffers resolved by the binding, the last output release of an array decides its final bytes |
| JniAdapters.ReleasesKeep | jni/sodium_jni_buffer.c:162-181 | an original block that no output release writes back ends up as the primitive left it |
| JniAdapters.OnlyDirectOutputsWritten | jni/sodium_jni_buffer.c:136-142 | the primitive gets a writable pointer into no original block except a direct output buffer's: copies are new blocks |
| JniAdapters.UntouchedKept | jni/sodium_jni_buffer.c:249-285 | a block that no output release targets and no writable direct pointer reaches keeps its bytes through the whole binding |
| JniAdapters.OutputDelivered | jni/sodium_jni_buffer.c:249-285 | a buffer passed through AS_OUTPUT and released as output ends up holding what the primitive left there, unless a later output release overwrites the same array |
| JniAdapters.Aes256gcmEncryptDetached | jni/sodium_jni_buffer.c:249-285 | resolves dst, mac, src, ad, nonce and key in that order; builds the ten arguments with NULL for the tag length pointer and for nsec; releases dst and mac as outputs and the rest as inputs; returns the status |
| JniAdapters.Aes256gcmEncryptDetachedDelivers | jni/sodium_jni_buffer.c:249-285 | the tag always reaches mac; the ciphertext reaches dst unless dst and mac share an array, and then the tag wins |
| JniAdapters.Aes256gcmEncryptDetachedKeeps | jni/sodium_jni_buffer.c:249-285 | every block other than dst's and mac's keeps its bytes |
| JniAdapters.Aes256gcmDecrypt | jni/sodium_jni_buffer.c:356-387 | dst through AS_OUTPUT and AS_OUTPUT_LEN, the rest as inputs; only dst is released as output |
| JniAdapters.Aes256gcmDecryptOutcome | jni/sodium_jni_buffer.c:356-387 | the plaintext reaches dst, the output length starts as dst's resolved length, and every other block keeps its bytes |
| JniAdapters.ChaCha20Poly1305IetfEncrypt | jni/sodium_jni_buffer.c:595-629 | dst and src are passed with their jint offsets added, and the message length is src_limit cast to unsigned long long |
| JniAdapters.ChaCha20Poly1305IetfEncryptArguments | jni/sodium_jni_buffer.c:610-616 | dst is written dst_offset bytes past its start and src read src_offset bytes past its start; a negative src_limit becomes a length of at least 2^63 |
| JniAdapters.ChaCha20Poly1305IetfEncryptOutcome | jni/sodium_jni_buffer.c:595-629 | the ciphertext reaches dst and every other block keeps its bytes |
| JniAdapters.ChaCha20Poly1305IetfDecryptDetached | jni/sodium_jni_buffer.c:631-665 | the mac goes in through AS_OUTPUT but is released as input; dst is released as output |
| JniAdapters.ChaCha20Poly1305IetfDecryptDetachedOutcome | jni/sodium_jni_buffer.c:631-665 | the plaintext reaches dst; every block other than dst's and a direct mac's keeps its bytes |
| JniAdapters.ChaCha20Poly1305IetfDecrypt | jni/sodium_jni_buffer.c:667-701 | as for encryption, with src_length cast to unsigned long long |
| JniAdapters.ChaCha20Poly1305IetfDecryptOutcome | jni/sodium_jni_buffer.c:667-701 | the plaintext reaches dst and every other block keeps its bytes |
| JniAdapters.HmacSha256Verify | jni/sodium_jni_buffer.c:902-922 | mac, src and key are all released as inputs |
| JniAdapters.HmacSha256VerifyKeeps | jni/sodium_jni_buffer.c:902-922 | verification changes no Java array; only a direct mac's native block can be written, in place |
| JniAdapters.HmacSha256Init | jni/sodium_jni_buffer.c:924-940 | the state goes out through AS_OUTPUT and back as output; the key goes in as input |
| JniAdapters.HmacSha256Update | jni/sodium_jni_buffer.c:942-958 | the same shape as init, with the message as input |
| JniAdapters.StateInputOutcome | jni/sodium_jni_buffer.c:924-958 | for the state-and-input bindings the new state reaches Java and every other block keeps its bytes |
| JniAdapters.HmacSha256Final | jni/sodium_jni_buffer.c:960-975 | state and dst are both outputs, released in resolution order |
| JniAdapters.HmacSha256FinalOutcome | jni/sodium_jni_buffer.c:960-975 | the tag always reaches dst; the state reaches Java unless it shares dst's array; every other block keeps its bytes |
| JniAdapters.Base642Bin | jni/sodium_jni_buffer.c:1719-1741 | dst is passed with its length and its capacity's address, src with its length, NULL for the ignore set and end pointer, and the variant as an int |
| JniAdapters.Base642BinOutcome | jni/sodium_jni_buffer.c:1719-1741 | the decoded bytes reach dst, both length arguments start at dst's resolved length, the variant passes unchanged, and every other block keeps its bytes |
| JniAdapters.Blake2bInit | jni/sodium_jni_buffer.c:1903-1921 | state as output, key and its length as input, outlen cast to size_t |
| JniAdapters.Blake2bInitOutcome | jni/sodium_jni_buffer.c:1903-1921 | the state reaches Java; a negative outlen becomes a size of at least 2^63; every other block keeps its bytes |
| JniAdapters.Blake2bUpdate | jni/sodium_jni_buffer.c:1923-1938 | the same shape as the hmac update |
| JniAdapters.Blake2bFinal | jni/sodium_jni_buffer.c:1940-1956 | dst is resolved before state; the output length is dst's resolved length; both are released as outputs, dst first |
| JniAdapters.Blake2bFinalOutcome | jni/sodium_jni_buffer.c:1940-1956 | the state always reaches Java; the hash reaches dst unless dst shares the state's array; every other block keeps its bytes |
| JniAdapters.Ed25519phFinalVerify | jni/sodium_jni_buffer.c:3194-3214 | the signature goes in through AS_OUTPUT but is released as input; the state is released as output |
| JniAdapters.Ed25519phFinalVerifyOutcome | jni/sodium_jni_buffer.c:3194-3214 | the state reaches Java; every block other than the state's and a direct signature's keeps its bytes |
| Stodium.Wrap32 | src/main/java/eu/artemisc/stodium/Stodium.java:132 | Java int addition wraps: the result is congruent to the sum modulo 2^32, and equal to it when it fits |
| Stodium.CheckStatus | src/main/java/eu/artemisc/stodium/Stodium.java:31-38 | normal exactly when the status is 0; otherwise StodiumException |
| Stodium.CheckStatusSealOpen | src/main/java/eu/artemisc/stodium/Stodium.java:50-61 | behaves as checkStatus: normal exactly when the status is 0, otherwise StodiumException |
| Stodium.CheckSize | src/main/java/eu/artemisc/stodium/Stodium.java:70-80 | normal exactly when the size equals the expected one; otherwise ConstraintViolationException |
| Stodium.CheckSizeBounds | src/main/java/eu/artemisc/stodium/Stodium.java:91-103 | normal exactly when lower <= src <= upper; otherwise ConstraintViolationException |
| Stodium.CheckPositive | src/main/java/eu/artemisc/stodium/Stodium.java:110-117 | normal exactly when src >= 0; otherwise ConstraintViolationException |
| Stodium.AndThen | src/main/java/eu/artemisc/stodium/Stodium.java:131-133 | a sequence of checks is normal exactly when each one is |
| Stodium.CheckOffsetParams | src/main/java/eu/artemisc/stodium/Stodium.java:127-134 | despite the wrapping int sum, normal exactly when offset >= 0, len >= 0 and offset + len <= dataLen as mathematical integers; otherwise ConstraintViolationException |
| Stodium.AndNotZero | src/main/java/eu/artemisc/stodium/Stodium.java:146 | a two's-complement integer and its complement share no bit |
| Stodium.PowerOfTwoHalf | src/main/java/eu/artemisc/stodium/Stodium.java:146 | an integer above 1 is a power of two exactly when it is even and its half is one |
| Stodium.LowestBitTest | src/main/java/eu/artemisc/stodium/Stodium.java:146 | src & (~src + 1) == src holds exactly when src is a power of two |
| Stodium.CheckPow2 | src/main/java/eu/artemisc/stodium/Stodium.java:143-151 | normal exactly when src > 0 and src is a power of two; otherwise ConstraintViolationException |
| Stodium.CheckPow2Long | src/main/java/eu/artemisc/stodium/Stodium.java:159-167 | the same for a long |
| Stodium.Diff | src/main/java/eu/artemisc/stodium/Stodium.java:182 | the sign-extended xor of two bytes is zero exactly when they are equal |
| Stodium.OrZero | src/main/java/eu/artemisc/stodium/Stodium.java:182 | an or of two words is zero exactly when both are |
| Stodium.IsEqual | src/main/java/eu/artemisc/stodium/Stodium.java:175-185 | the constant-time comparison returns true exactly when the two arrays are equal |
| Stodium.Front | src/main/java/eu/artemisc/stodium/Stodium.java:199-201 | the bytes isEqual(ByteBuffer) compares are remaining() bytes counted from index 0 |
| Stodium.IsEqualBuffers | src/main/java/eu/artemisc/stodium/Stodium.java:193-203 | as written: true exactly when the remaining counts agree and the first remaining() bytes from index 0 agree |
| Stodium.IsEqualRemaining | src/main/java/eu/artemisc/stodium/Stodium.java:193-203 | corrected: true exactly when the two buffers' remaining bytes are equal |
| Stodium.IsEqualBuffersIgnoresPosition | src/main/java/eu/artemisc/stodium/Stodium.java:199-201 | two buffers with different remaining bytes that isEqual(ByteBuffer) calls equal |
| Stodium.WipeArray | src/main/java/eu/artemisc/stodium/Stodium.java:209-211 | every byte of the array becomes 0 and no other block changes |
| Stodium.SpliceZeros | src/main/java/eu/artemisc/stodium/Stodium.java:224-226 | writing k zeros and then n zeros right after is writing k + n zeros |
| Stodium.ZeroRemaining | src/main/java/eu/artemisc/stodium/Stodium.java:224-226 | the put loop zeroes exactly the remaining bytes, in chunks of at most 8, and leaves the position at the limit |
| Stodium.WipeBuffer | src/main/java/eu/artemisc/stodium/Stodium.java:214-227 | an array-backed buffer has its whole array zeroed; any read-only buffer without an array, direct or heap, is left alone; any other buffer (a writable direct one) has its remaining bytes zeroed and its position moved to the limit |
| Stodium.CheckDestinationWritable | src/main/java/eu/artemisc/stodium/Stodium.java:267-274 | normal exactly when the buffer is direct or not read-only; otherwise ReadOnlyBufferException |
| Stodium.UsableStateKeepsWindow | src/main/java/eu/artemisc/stodium/Stodium.java:245-255 | what ensureUsableByteBuffer returns is direct or array-backed, has the same remaining bytes, and is the buffer itself exactly when that one was usable already |
| Stodium.WritableDestinationNotCopied | src/main/java/eu/artemisc/stodium/Stodium.java:246-247 | a buffer passes checkDestinationWritable exactly when ensureUsableByteBuffer returns it unchanged |
| Stodium.EnsureUsableByteBuffer | src/main/java/eu/artemisc/stodium/Stodium.java:245-255 | a direct or writable array-backed buffer is returned as is; any other is copied into a fresh direct buffer holding its remaining bytes from position 0, and its own position moves to its limit; the caller's buffer ends as ConsumedState says |
| Stodium.ConsumedState | src/main/java/eu/artemisc/stodium/Stodium.java:245-255 | the caller's buffer after ensureUsableByteBuffer keeps its bytes and limit; it is unchanged exactly when it was usable already or had nothing remaining, and otherwise has nothing remaining |
| Stodium.Statics.RunInit | src/main/java/eu/artemisc/stodium/Stodium.java:284-295 | calls the native init only when not yet initialized; a non-zero status throws RuntimeException and leaves it uninitialized; once initialized it stays so |
| Stodium.Statics.StodiumInit | src/main/java/eu/artemisc/stodium/Stodium.java:337-339 | the same as runInit |
| Stodium.Guard | src/main/java/eu/artemisc/stodium/Curve25519.java:45-51 | a failing check ends the wrapper with its exception; a passing one lets the rest run |
| Stodium.SlicedHandsOver | src/main/java/eu/artemisc/stodium/Curve25519.java:49-51 | slice() then ensureUsableByteBuffer hands the native resolver exactly the caller's remaining bytes |
| Curve25519.ScalarMult | src/main/java/eu/artemisc/stodium/Curve25519.java:41-52 | calls the native function exactly when dst, src and groupElement each have SCALAR_BYTES remaining; otherwise ConstraintViolationException; each buffer is handed over as its remaining bytes, and the status goes through checkStatus |
| Curve25519.ScalarMultBase | src/main/java/eu/artemisc/stodium/Curve25519.java:61-69 | the same for dst and src with the base-point function |
| Curve25519.X25519PrivateToPublic | src/main/java/eu/artemisc/stodium/Curve25519.java:82-86 | calls the base-point function exactly when both buffers have SCALAR_BYTES remaining, and hands both over as their remaining bytes |
| Curve25519.ScalarMultDropsReadOnlyOutput | src/main/java/eu/artemisc/stodium/Curve25519.java:41-69 | for scalarMult and scalarMultBase alike: any read-only heap dst with SCALAR_BYTES remaining, with the other buffers of the right size and any status checkStatus accepts, passes every guard and ends normally, but the native code gets a fresh direct copy instead of dst |
| Curve25519.ScalarMultChecked | src/main/java/eu/artemisc/stodium/Curve25519.java:41-52 | corrected: a read-only heap dst is refused with ReadOnlyBufferException, and whenever the native code runs, dst reaches it as its own slice |
| Curve25519.ScalarMultBaseChecked | src/main/java/eu/artemisc/stodium/Curve25519.java:61-69 | the same correction for scalarMultBase |
| Argon2i.PwhashArgon2i | src/main/java/eu/artemisc/stodium/pwhash/Argon2i.java:79-95 | a read-only heap dstKey is refused first with ReadOnlyBufferException; the native call happens exactly when dstKey is writable, the salt has 16 bytes remaining and memLimit is a positive power of two; the buffers go unsliced |
| Argon2i.PwhashArgon2iInteractive | src/main/java/eu/artemisc/stodium/pwhash/Argon2i.java:62-67 | the five-argument form with the interactive limits, so it calls exactly when the interactive memory limit is a positive power of two |
| Argon2i.PwhashArgon2iIgnoresPosition | src/main/java/eu/artemisc/stodium/pwhash/Argon2i.java:90-94 | a writable heap dstKey with 32 bytes from position 1 passes every guard, but the resolver exposes its bytes from index 0 |
| Argon2i.PwhashArgon2iCallers | src/main/java/eu/artemisc/stodium/pwhash/Argon2i.java:84-94 | the caller's buffers after the call: dstKey keeps its position, limit and offset, and its bytes are the native output exactly when the call was made (otherwise unchanged); srcPwd and srcSalt are unchanged exactly when the call was rejected or they were usable already (or, for srcPwd, empty); otherwise they are drained |
| Argon2i.PwhashArgon2iDrainsPassword | src/main/java/eu/artemisc/stodium/pwhash/Argon2i.java:90-94 | as written: a read-only heap password with bytes remaining, hashed, comes back with remaining() == 0, and so does the salt exactly when it is a read-only heap buffer |
| Argon2i.PwhashArgon2iSlicedSparesCallers | src/main/java/eu/artemisc/stodium/pwhash/Argon2i.java:90-94 | corrected: with slice()s the native code still sees the password's and salt's remaining bytes, and what ensureUsableByteBuffer drains for a read-only password is a view over its bytes, not the caller's buffer |
| Argon2i.PwhashArgon2iSliced | src/main/java/eu/artemisc/stodium/pwhash/Argon2i.java:79-95 | corrected: the same guards, and every buffer is handed over as exactly its remaining bytes |
| Argon2i.PwhashArgon2iShared | src/main/java/eu/artemisc/stodium/pwhash/Argon2i.java:84-94 | one buffer passed as both password and salt: it calls exactly when the distinct-argument form would, with the same rejection; the salt is made usable from what the password's copy left, and for a direct or array-backed buffer this is the distinct-argument form |
| Argon2i.PwhashArgon2iSharedEmptiesSalt | src/main/java/eu/artemisc/stodium/pwhash/Argon2i.java:84-94 | a read-only heap buffer with 16 bytes remaining passed as both passes the salt check, yet the native code gets a 16-byte password and an empty salt, where distinct buffers would give it 16 salt bytes |

## Left out

- The libsodium primitives are unknown calls. They may write any block their writable pointers reach, they return any status, and they store any length through AS_OUTPUT_LEN. What they compute is not modelled.
- GetByteArrayElements is modelled as always copying and never failing. A NULL result and the isCopy flag are not modelled.
- JNI exceptions raised during resolution are not modelled. This covers array() on a read-only heap buffer and a failing CallIntMethod. The bindings require every handle to be NULL, direct, or array-backed and writable. Java guarantees this by passing buffers through ensureUsableByteBuffer.
- JniAdapters.Apart: a direct buffer's native block is never a Java array. This is a property of the JVM and is assumed, not derived.
- Only fourteen of the native bindings are modelled, as samples of the pattern. The others differ only in their argument lists and release orders.
- The Java-to-native linkage (StodiumJNI), the static library-loading block and the native constant getters are not part of this model. SCALAR_BYTES, OPSLIMIT_INTERACTIVE, MEMLIMIT_INTERACTIVE and every native status are parameters.
- Stodium.Statics.RunInit: `synchronized` is not modelled. The model is single-threaded.
- Exception messages (String.format text and descriptions) are not modelled. Only the exception's type is kept.
- Stodium.CheckPow2Long: a long is an unbounded integer in the range of a long. The wrap of `~src + 1` at Long.MIN_VALUE cannot change the verdict, because the check first requires src > 0.
- Stodium.IsEqual: the timing behaviour of the comparison is not modelled. Only its result is.
- randombytes, sodium_version_string and the other bindings outside the buffer pattern are not part of this model.
- JniAdapters.StoreLengths: assumes a 64-bit size_t, so that the unsigned long long the primitive stores through AS_OUTPUT_LEN fits the capacity field exactly. On a 32-bit ABI that store overruns the field; StoreLength32 models that case and the finding below records it.
- JniAdapters.Blake2bInitOutcome: assumes a 64-bit size_t. On a 32-bit ABI `(size_t) outlen` wraps modulo 2^32, so a negative outlen becomes a size of at least 2^31, not 2^63.
- JniBuffer.Unsigned64: models the 64-bit size_t only.
- Argon2i.PwhashArgon2i: the Gate it returns holds what the native call receives, not the caller's buffers afterwards. Those are given separately by PwhashArgon2iCallers.
- Argon2i.PwhashArgon2i: takes dstKey, srcPwd and srcSalt to be distinct objects; the one aliasing that changes what the native code receives (the same buffer as password and salt) is modelled by PwhashArgon2iShared, and other aliasings (dstKey shared with an input) are not modelled.
- Stodium.EnsureUsableByteBuffer: the order of the mark/put/reset calls is modelled. The buffer's mark field on the caller's buffer is not tracked.

## Findings

| source | as written | input that shows it | evidently intended | confidence | as-written member | corrected member |
|---|---|---|---|---|---|---|
| src/main/java/eu/artemisc/stodium/Stodium.java:199-201 | isEqual(ByteBuffer, ByteBuffer) compares `a.get(i)` and `b.get(i)` for i below remaining(), counting from index 0 rather than from the position | two heap buffers over [1, 2] and [1, 3], both at position 1 with limit 2: remaining bytes [2] and [3], result true | compare the remaining bytes, `get(position + i)` | high, not executed | Stodium.IsEqualBuffersIgnoresPosition | Stodium.IsEqualRemaining |
| src/main/java/eu/artemisc/stodium/Curve25519.java:45-51 | scalarMult and scalarMultBase do not call checkDestinationWritable, so a read-only heap dst is copied by ensureUsableByteBuffer and the result lands in a copy Java drops | a read-only heap dst with 32 bytes remaining and valid src and group element: the call ends normally and dst is unchanged | refuse a read-only destination first, as pwhashArgon2i does | high, not executed | Curve25519.ScalarMultDropsReadOnlyOutput | Curve25519.ScalarMultChecked |
| src/main/java/eu/artemisc/stodium/pwhash/Argon2i.java:90-94 | pwhashArgon2i hands its buffers to the native code without slice(); the resolver exposes a heap buffer's bytes from arrayOffset(), not from the position | a writable heap dstKey over [7, 0, ..., 0] (33 bytes) at position 1: the key is written from index 0, over the byte 7 | hand over slice()s, as the Curve25519 wrappers do | medium, not executed | Argon2i.PwhashArgon2iIgnoresPosition | Argon2i.PwhashArgon2iSliced |
| jni/sodium_jni_buffer.c:56 | AS_OUTPUT_LEN(unsigned long long, buf) passes the address of the size_t capacity field as an unsigned long long pointer | on a 32-bit little-endian ABI, crypto_aead_chacha20poly1305_ietf_encrypt with a direct dst: the 8-byte ciphertext length lands on capacity and the 4 bytes after it; a length below 2^32 writes 0 over is_direct, and stodium_release_output then releases the never-set backing_array | store the length in an unsigned long long local, then assign it to the capacity | medium, not executed | JniAdapters.StoreLength32DropsDirect | JniAdapters.StoreLengths |
| src/main/java/eu/artemisc/stodium/pwhash/Argon2i.java:90-94 | pwhashArgon2i passes srcPwd and srcSalt themselves to ensureUsableByteBuffer, whose put() drains a read-only heap buffer | a read-only heap srcPwd with 8 bytes remaining and a valid 16-byte salt: after hashing, srcPwd.remaining() == 0 | leave the caller's buffers as they were, by handing over slice()s | medium, not executed | Argon2i.PwhashArgon2iDrainsPassword | Argon2i.PwhashArgon2iSlicedSparesCallers |
