/**
 * The Java helpers every wrapper class leans on: status and size guards that
 * return normally or throw, constant-time comparison, wiping, the copy that
 * makes a ByteBuffer acceptable to the native resolver, and the once-only
 * native initialisation.
 */
module Stodium {
  import opened Runtime
  import opened JniBuffer

  /** The exceptions the helpers and wrappers throw. */
  datatype Thrown =
    | StodiumException
    | ConstraintViolationException
    | ReadOnlyBufferException
    | RuntimeException

  /** How a Java call ends: it returns normally or throws. */
  datatype Outcome = Normal | Throws(e: Thrown)

  /** Java `long`. */
  type int64 = x: int | -0x8000_0000_0000_0000 <= x < 0x8000_0000_0000_0000

  const TWO_TO_32: int := 0x1_0000_0000

  /** A Java `int` result: the exact value reduced to 32 bits, two's complement. */
  function Wrap32(x: int): (r: int32)
    ensures (r - x) % TWO_TO_32 == 0
    ensures -0x8000_0000 <= x < 0x8000_0000 ==> r == x
    ensures 0x8000_0000 <= x < TWO_TO_32 ==> r == x - TWO_TO_32
  {
    (x + 0x8000_0000) % TWO_TO_32 - 0x8000_0000
  }

  // ---------------------------------------------------------------------
  // Guards

  /** checkStatus: a non-zero native status becomes a StodiumException. */
  function CheckStatus(status: int32): (o: Outcome)
    ensures o == Normal <==> status == 0
    ensures o != Normal ==> o == Throws(StodiumException)
  {
    if status == 0 then Normal else Throws(StodiumException)
  }

  /**
   * checkStatusSealOpen: meant to throw AEADBadTagException, but defers to
   * checkStatus; the description only feeds the message.
   */
  function CheckStatusSealOpen(status: int32, methodDescription: string): (o: Outcome)
    ensures o == Normal <==> status == 0
    ensures o != Normal ==> o == Throws(StodiumException)
    ensures o == CheckStatus(status)
  {
    if status == 0 then Normal else CheckStatus(status)
  }

  /** checkSize(src, expected, constant): exact size. */
  function CheckSize(src: int32, expected: int32): (o: Outcome)
    ensures o == Normal <==> src == expected
    ensures o != Normal ==> o == Throws(ConstraintViolationException)
  {
    if src == expected then Normal else Throws(ConstraintViolationException)
  }

  /** checkSize(src, lower, upper, lowerC, upperC): inclusive bounds. */
  function CheckSizeBounds(src: int32, lower: int32, upper: int32): (o: Outcome)
    ensures o == Normal <==> lower <= src <= upper
    ensures o != Normal ==> o == Throws(ConstraintViolationException)
  {
    if src <= upper && src >= lower then Normal else Throws(ConstraintViolationException)
  }

  /** checkPositive: zero passes. */
  function CheckPositive(src: int32): (o: Outcome)
    ensures o == Normal <==> src >= 0
    ensures o != Normal ==> o == Throws(ConstraintViolationException)
  {
    if src >= 0 then Normal else Throws(ConstraintViolationException)
  }

  /** The first of two guards that throws, or the second. */
  function AndThen(first: Outcome, second: Outcome): (o: Outcome)
    ensures o == Normal <==> first == Normal && second == Normal
  {
    if first.Throws? then first else second
  }

  /**
   * checkOffsetParams(dataLen, offset, len): `offset + len` is computed in
   * Java `int` and may wrap, yet the three guards together accept exactly the
   * ranges that fit, in exact arithmetic.
   */
  function CheckOffsetParams(dataLen: int32, offset: int32, len: int32): (o: Outcome)
    ensures o == Normal <==> 0 <= offset && 0 <= len && offset + len <= dataLen
    ensures o != Normal ==> o == Throws(ConstraintViolationException)
  {
    AndThen(CheckSizeBounds(offset, 0, dataLen),
            AndThen(CheckSizeBounds(Wrap32(offset + len), 0, dataLen), CheckPositive(len)))
  }

  // ---------------------------------------------------------------------
  // Powers of two

  function Pow2(k: nat): (p: nat)
    ensures p >= 1
  {
    if k == 0 then 1 else 2 * Pow2(k - 1)
  }

  ghost predicate IsPowerOfTwo(n: int) {
    exists k: nat :: n == Pow2(k)
  }

  /** Java's `~x` on a two's-complement integer. */
  function Not(x: int): int {
    -x - 1
  }

  /**
   * Java's `&` on two's-complement integers of any width, bit by bit from
   * the lowest (`/` and `%` by 2 are floor division and the low bit).
   */
  function And(x: int, y: int): int
    decreases if x >= 0 then x else -x - 1
  {
    if x == 0 || y == 0 then 0
    else if x == -1 then y
    else if y == -1 then x
    else 2 * And(x / 2, y / 2) + (if x % 2 == 1 && y % 2 == 1 then 1 else 0)
  }

  /** A number and its complement share no bit. */
  lemma {:induction false} AndNotZero(m: int)
    ensures And(m, Not(m)) == 0
    decreases if m >= 0 then m else -m - 1
  {
    if m != 0 && m != -1 {
      assert Not(m) / 2 == Not(m / 2);
      AndNotZero(m / 2);
    }
  }

  /** An even number above 1 is a power of two exactly when its half is. */
  lemma PowerOfTwoHalf(n: int)
    requires n > 1
    ensures IsPowerOfTwo(n) <==> n % 2 == 0 && IsPowerOfTwo(n / 2)
  {
    if IsPowerOfTwo(n) {
      var k: nat :| n == Pow2(k);
      assert k > 0;
      assert n / 2 == Pow2(k - 1);
    }
    if n % 2 == 0 && IsPowerOfTwo(n / 2) {
      var k: nat :| n / 2 == Pow2(k);
      assert n == Pow2(k + 1);
    }
  }

  /**
   * `n & -n` keeps the lowest set bit of n, so it equals n exactly when n
   * has a single bit set.
   */
  lemma {:induction false} LowestBitTest(n: int)
    requires n > 0
    ensures And(n, -n) == n <==> IsPowerOfTwo(n)
  {
    if n == 1 {
      assert n == Pow2(0);
    } else {
      PowerOfTwoHalf(n);
      if n % 2 == 0 {
        assert (-n) / 2 == -(n / 2);
        LowestBitTest(n / 2);
      } else {
        assert (-n) / 2 == Not(n / 2);
        AndNotZero(n / 2);
      }
    }
  }

  /** checkPow2(int src, descr): `src > 0 && (src & (~src + 1)) == src`. */
  function CheckPow2(src: int32): (o: Outcome)
    ensures o == Normal <==> src > 0 && IsPowerOfTwo(src)
    ensures o != Normal ==> o == Throws(ConstraintViolationException)
  {
    if src > 0 then
      LowestBitTest(src);
      if And(src, Wrap32(Not(src) + 1)) == src then Normal else Throws(ConstraintViolationException)
    else Throws(ConstraintViolationException)
  }

  /** checkPow2(long src, descr): the same test on a Java `long`. */
  function CheckPow2Long(src: int64): (o: Outcome)
    ensures o == Normal <==> src > 0 && IsPowerOfTwo(src)
    ensures o != Normal ==> o == Throws(ConstraintViolationException)
  {
    if src > 0 then
      LowestBitTest(src);
      if And(src, Not(src) + 1) == src then Normal else Throws(ConstraintViolationException)
    else Throws(ConstraintViolationException)
  }

  // ---------------------------------------------------------------------
  // Constant-time comparison

  /**
   * `a ^ b` on two Java bytes: both are sign-extended to `int` first, so the
   * difference is a 32-bit pattern, zero exactly when the bytes are equal.
   */
  function Diff(a: byte, b: byte): (d: bv32)
    ensures d == 0 <==> a == b
  {
    var wa: bv32 := if a & 0x80 == 0 then a as bv32 else a as bv32 | 0xffff_ff00;
    var wb: bv32 := if b & 0x80 == 0 then b as bv32 else b as bv32 | 0xffff_ff00;
    wa ^ wb
  }

  /** The accumulator stays zero only while every difference is zero. */
  lemma OrZero(r: bv32, d: bv32)
    ensures r | d == 0 <==> r == 0 && d == 0
  {
  }

  /**
   * isEqual(byte[] a, byte[] b): after the length test, every index is
   * visited and its difference OR-ed into one accumulator, with no early exit.
   */
  method IsEqual(a: seq<byte>, b: seq<byte>) returns (equal: bool)
    ensures equal <==> a == b
  {
    if |a| != |b| {
      return false;
    }
    var result: bv32 := 0;
    var i := 0;
    while i < |a|
      invariant 0 <= i <= |a|
      invariant result == 0 <==> forall j | 0 <= j < i :: a[j] == b[j]
    {
      var d := Diff(a[i], b[i]);
      OrZero(result, d);
      result := result | d;
      i := i + 1;
    }
    return result == 0;
  }

  /** The first `remaining()` bytes of a buffer counted from its index 0. */
  function Front(s: BufferState): (f: seq<byte>)
    requires s.Valid()
    ensures |f| == s.Remaining()
  {
    s.bytes[s.offset .. s.offset + s.Remaining()]
  }

  /**
   * isEqual(ByteBuffer a, ByteBuffer b) as written: after comparing
   * remaining(), it reads with the absolute get(i) for i below remaining(),
   * that is from index 0 rather than from the position.
   */
  method IsEqualBuffers(heap: Memory, a: ByteBuffer, b: ByteBuffer) returns (equal: bool)
    requires a.Valid(heap) && b.Valid(heap)
    ensures equal <==> a.Remaining() == b.Remaining() && Front(a.State(heap)) == Front(b.State(heap))
  {
    if a.Remaining() != b.Remaining() {
      return false;
    }
    ghost var fa, fb := Front(a.State(heap)), Front(b.State(heap));
    var result: bv32 := 0;
    var i := 0;
    while i < a.Remaining()
      invariant 0 <= i <= a.Remaining()
      invariant result == 0 <==> forall j | 0 <= j < i :: fa[j] == fb[j]
    {
      var x, y := a.Get(heap, i), b.Get(heap, i);
      assert x == fa[i] && y == fb[i];
      var d := Diff(x, y);
      OrZero(result, d);
      result := result | d;
      i := i + 1;
    }
    return result == 0;
  }

  /**
   * The comparison isEqual(ByteBuffer, ByteBuffer) is evidently meant to
   * make: the same loop over get(position() + i), comparing the remaining
   * bytes.
   */
  method IsEqualRemaining(heap: Memory, a: ByteBuffer, b: ByteBuffer) returns (equal: bool)
    requires a.Valid(heap) && b.Valid(heap)
    ensures equal <==> a.State(heap).Window() == b.State(heap).Window()
  {
    if a.Remaining() != b.Remaining() {
      return false;
    }
    ghost var wa, wb := a.State(heap).Window(), b.State(heap).Window();
    var result: bv32 := 0;
    var i := 0;
    while i < a.Remaining()
      invariant 0 <= i <= a.Remaining()
      invariant result == 0 <==> forall j | 0 <= j < i :: wa[j] == wb[j]
    {
      var x, y := a.Get(heap, a.position + i), b.Get(heap, b.position + i);
      assert x == wa[i] && y == wb[i];
      var d := Diff(x, y);
      OrZero(result, d);
      result := result | d;
      i := i + 1;
    }
    return result == 0;
  }

  /**
   * Two heap buffers over different arrays, both with one byte remaining at
   * position 1: their remaining bytes differ, but the bytes at index 0,
   * which isEqual(ByteBuffer, ByteBuffer) compares, agree.
   */
  lemma IsEqualBuffersIgnoresPosition()
    ensures var sa := BufferState(false, false, [1, 2], 0, 2, 1, 2);
            var sb := BufferState(false, false, [1, 3], 0, 2, 1, 2);
            sa.Valid() && sb.Valid() && sa.Remaining() == sb.Remaining() &&
            Front(sa) == Front(sb) && sa.Window() != sb.Window()
  {
    var sa := BufferState(false, false, [1, 2], 0, 2, 1, 2);
    var sb := BufferState(false, false, [1, 3], 0, 2, 1, 2);
    assert sa.Window()[0] == 2 && sb.Window()[0] == 3;
  }

  // ---------------------------------------------------------------------
  // Wiping

  /** wipeBytes(byte[] a): Arrays.fill(a, 0) on array `a`. */
  function WipeArray(heap: Memory, a: Id): (heap': Memory)
    requires a < |heap|
    ensures |heap'| == |heap| && |heap'[a]| == |heap[a]|
    ensures forall i | 0 <= i < |heap'[a]| :: heap'[a][i] == 0
    ensures forall id | 0 <= id < |heap| && id != a :: heap'[id] == heap[id]
  {
    heap[a := Zeros(|heap[a]|)]
  }

  /** The static eight-byte zero buffer wipeBytes(ByteBuffer) copies from. */
  const EMPTY_BUFFER: seq<byte> := Zeros(8)

  /** Zeroing the next `n` bytes after zeroing the previous `k` zeroes `k + n`. */
  lemma SpliceZeros(s: seq<byte>, at: nat, k: nat, n: nat)
    requires at + k + n <= |s|
    ensures Splice(Splice(s, at, Zeros(k)), at + k, Zeros(n)) == Splice(s, at, Zeros(k + n))
    ensures Splice(s, at, Zeros(0)) == s
  {
    assert Splice(s, at, Zeros(0)) == Splice(s, at, Zeros(0))[..at] + Splice(s, at, Zeros(0))[at..];
    var l, r := Splice(Splice(s, at, Zeros(k)), at + k, Zeros(n)), Splice(s, at, Zeros(k + n));
    forall i | 0 <= i < |s| ensures l[i] == r[i] {
      if i < at {
        assert l[i] == s[..at][i];
      } else if i < at + k + n {
        assert r[i] == Zeros(k + n)[i - at];
      }
    }
  }

  /**
   * The loop of wipeBytes(ByteBuffer a): put() from the zero buffer, at most
   * eight bytes at a time, until nothing remains.
   */
  method ZeroRemaining(heap: Memory, a: ByteBuffer) returns (heap': Memory)
    requires a.Valid(heap) && !a.isReadOnly
    modifies a`position
    ensures a.Valid(heap') && a.position == a.limit
    ensures heap' == heap[a.block := Splice(heap[a.block], a.offset + old(a.position), Zeros(old(a.Remaining())))]
  {
    ghost var start := a.offset + a.position;
    ghost var bytes := heap[a.block];
    heap' := heap;
    SpliceZeros(bytes, start, 0, 0);
    while a.position < a.limit
      invariant a.Valid(heap') && old(a.position) <= a.position <= a.limit
      invariant heap' == heap[a.block := Splice(bytes, start, Zeros(a.position - old(a.position)))]
      decreases a.limit - a.position
    {
      var n := if a.Remaining() < 8 then a.Remaining() else 8;
      SpliceZeros(bytes, start, a.position - old(a.position), n);
      assert EMPTY_BUFFER[0 .. n] == Zeros(n);
      heap' := a.PutBytes(heap', EMPTY_BUFFER, 0, n);
    }
  }

  /**
   * wipeBytes(ByteBuffer a): a buffer with an accessible array has that
   * whole array zeroed; any other read-only buffer is left alone; a writable
   * direct buffer is zeroed from its position to its limit, eight bytes at a
   * time, and ends with its position at the limit.
   */
  method WipeBuffer(heap: Memory, a: ByteBuffer) returns (heap': Memory)
    requires a.Valid(heap)
    modifies a`position
    ensures a.Valid(heap')
    ensures a.HasArray() ==> heap' == WipeArray(heap, a.block) && a.position == old(a.position)
    ensures !a.HasArray() && a.isReadOnly ==> heap' == heap && a.position == old(a.position)
    ensures !a.HasArray() && !a.isReadOnly ==>
              a.position == a.limit &&
              heap' == heap[a.block := Splice(heap[a.block], a.offset + old(a.position), Zeros(old(a.Remaining())))]
  {
    if a.HasArray() {
      return WipeArray(heap, a.block);
    }
    if a.isReadOnly {
      return heap;
    }
    heap' := ZeroRemaining(heap, a);
  }

  // ---------------------------------------------------------------------
  // Buffers handed to the native code

  /**
   * checkDestinationWritable: only a read-only heap buffer is refused (a
   * direct buffer passes even when read-only).
   */
  function CheckDestinationWritable(s: BufferState): (o: Outcome)
    ensures o == Normal <==> s.isDirect || !s.isReadOnly
    ensures o != Normal ==> o == Throws(ReadOnlyBufferException)
  {
    if s.isDirect || !s.isReadOnly then Normal else Throws(ReadOnlyBufferException)
  }

  /** What ensureUsableByteBuffer returns for a buffer in state `s`, as a value. */
  function UsableState(s: BufferState): (u: BufferState)
    requires s.Valid()
  {
    if s.isDirect || (s.HasArray() && !s.isReadOnly) then s
    else BufferState(true, false, s.Window(), 0, s.Remaining(), 0, s.Remaining())
  }

  /**
   * The caller's buffer after ensureUsableByteBuffer(buff): left as it was
   * when it is handed over itself; drained by the put() that copies it
   * otherwise, its position moved to its limit.
   */
  function ConsumedState(s: BufferState): (t: BufferState)
    requires s.Valid()
    ensures t.Valid() && t.bytes == s.bytes && t.limit == s.limit
    ensures t == s <==> s.isDirect || s.HasArray() || s.Remaining() == 0
    ensures !(s.isDirect || s.HasArray()) ==> t.Remaining() == 0
  {
    if s.isDirect || s.HasArray() then s else s.(position := s.limit)
  }

  /**
   * Whatever the buffer, the result is one the native resolver accepts, and
   * its remaining bytes are the original's.
   */
  lemma UsableStateKeepsWindow(s: BufferState)
    requires s.Valid()
    ensures UsableState(s).Valid() && (UsableState(s).isDirect || UsableState(s).HasArray())
    ensures UsableState(s).Window() == s.Window()
    ensures UsableState(s) == s <==> s.isDirect || s.HasArray()
  {
  }

  /**
   * A destination that passes checkDestinationWritable is handed to the
   * native code itself, never through a copy; one that fails it would be.
   */
  lemma WritableDestinationNotCopied(s: BufferState)
    requires s.Valid()
    ensures CheckDestinationWritable(s) == Normal <==> UsableState(s) == s
  {
  }

  /**
   * ensureUsableByteBuffer(buff): a direct or array-backed writable buffer is
   * returned itself; any other (a read-only heap buffer) is copied into a new
   * direct buffer of remaining() bytes, with position 0, by mark(), put(buff)
   * and reset(), which moves buff's position to its limit.
   */
  method EnsureUsableByteBuffer(heap: Memory, buff: ByteBuffer) returns (r: ByteBuffer, heap': Memory)
    requires buff.Valid(heap)
    modifies buff`position
    ensures Usable(r, heap') && |heap| <= |heap'| && heap'[..|heap|] == heap
    ensures buff.isDirect || buff.HasArray() ==>
              r == buff && heap' == heap && buff.position == old(buff.position)
    ensures !(buff.isDirect || buff.HasArray()) ==>
              fresh(r) && r.State(heap') == UsableState(old(buff.State(heap))) &&
              buff.position == buff.limit
    ensures buff.block < |heap'| && buff.State(heap') == ConsumedState(old(buff.State(heap)))
  {
    if buff.isDirect || (buff.HasArray() && !buff.isReadOnly) {
      return buff, heap;
    }
    ghost var w := buff.State(heap).Window();
    var direct;
    direct, heap' := AllocateDirect(heap, buff.Remaining());
    assert buff.Valid(heap') by {
      assert heap'[buff.block] == heap[buff.block];
    }
    direct.Mark();
    heap' := direct.Put(heap', buff);
    direct.Reset();
    assert heap'[direct.block] == w by {
      assert heap'[direct.block] == Splice(Zeros(|w|), 0, w);
    }
    r := direct;
  }

  // ---------------------------------------------------------------------
  // Initialisation

  /** Stodium's static state: whether sodium_init() has succeeded. */
  class Statics {
    var initialized: bool

    constructor ()
      ensures !initialized
    {
      initialized := false;
    }

    /**
     * runInit(): `status` is what stodium_init() returns if it is called. It
     * is called only while not initialized; the flag is set only on status
     * 0, and any other status throws, leaving the flag clear for a retry.
     */
    method RunInit(status: int32) returns (o: Outcome, called: bool)
      modifies this
      ensures called == !old(initialized)
      ensures initialized == (old(initialized) || status == 0)
      ensures o == Normal <==> initialized
      ensures o != Normal ==> o == Throws(RuntimeException)
    {
      if initialized {
        return Normal, false;
      }
      called := true;
      if status != 0 {
        return Throws(RuntimeException), called;
      }
      initialized := true;
      o := Normal;
    }

    /** StodiumInit(): runInit(). */
    method StodiumInit(status: int32) returns (o: Outcome, called: bool)
      modifies this
      ensures called == !old(initialized)
      ensures initialized == (old(initialized) || status == 0)
      ensures o == Normal <==> initialized
      ensures o != Normal ==> o == Throws(RuntimeException)
    {
      o, called := RunInit(status);
    }
  }

  // ---------------------------------------------------------------------
  // Wrappers

  /**
   * What a wrapper method does: throw before reaching the native code, or
   * call native `fn` with these buffers (as values, in the state handed over)
   * and scalars, and map its status.
   */
  datatype Gate =
    | Rejected(e: Thrown)
    | Called(fn: string, buffers: seq<BufferState>, scalars: seq<int>, status: int32)
  {
    /** How the wrapper ends. */
    function Outcome(): (o: Outcome)
      ensures Rejected? ==> o == Throws(e)
      ensures Called? ==> o == CheckStatus(status)
    {
      if Rejected? then Throws(e) else CheckStatus(status)
    }
  }

  /** A guard in front of the rest of a wrapper. */
  function Guard(check: Outcome, rest: Gate): (g: Gate)
    ensures check.Throws? ==> g == Rejected(check.e)
    ensures check == Normal ==> g == rest
  {
    if check.Throws? then Rejected(check.e) else rest
  }

  /**
   * A buffer as the native resolver receives it shows exactly the caller's
   * remaining bytes.
   */
  ghost predicate HandsOver(handed: BufferState, caller: BufferState) {
    handed.Valid() && caller.Valid() && (handed.isDirect || handed.HasArray()) &&
    ResolvedRegion(handed) == caller.Window()
  }

  /** slice() and then ensureUsableByteBuffer hand over the remaining bytes. */
  lemma SlicedHandsOver(s: BufferState)
    requires s.Valid()
    ensures HandsOver(UsableState(SliceState(s)), s)
  {
    SlicedRegionIsWindow(s);
    UsableStateKeepsWindow(SliceState(s));
  }
}
