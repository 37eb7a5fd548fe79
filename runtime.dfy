/**
 * The Java runtime as the buffer-marshalling layer sees it: java.nio.ByteBuffer
 * objects, the JVM's class and method lookups, and the JNI calls that expose a
 * buffer's memory to native code (direct addresses, pinned array elements).
 *
 * Memory is a sequence of blocks, a block's identity being its index: every
 * Java byte[], every native block behind a direct buffer, and every copy
 * handed out by GetByteArrayElements is one block. A pinned copy is a block
 * of its own, appended at the end, so native writes to it reach the Java
 * array only when it is released.
 */
module Runtime {

  type byte = bv8

  datatype Option<+T> = None | Some(value: T)

  /** Java `int` / JNI `jint`. */
  type int32 = x: int | -0x8000_0000 <= x < 0x8000_0000

  const INT_MAX: int := 0x7fff_ffff

  /** The identity of a block of memory (a Java byte[] or a native block). */
  type Id = nat

  /** All blocks, indexed by identity. */
  type Memory = seq<seq<byte>>

  /** A native pointer: the block it points into (None for NULL-based
      pointers) and a byte index, so that C pointer arithmetic is exact. */
  datatype Ptr = Ptr(block: Option<Id>, index: int)

  const NULL: Ptr := Ptr(None, 0)

  /** `p + n` in C. */
  function Add(p: Ptr, n: int): (q: Ptr)
    ensures q.block == p.block && q.index - p.index == n
  {
    Ptr(p.block, p.index + n)
  }

  /** `s` with the bytes from `at` on replaced by `t`. */
  function Splice(s: seq<byte>, at: nat, t: seq<byte>): (r: seq<byte>)
    requires at + |t| <= |s|
    ensures |r| == |s|
    ensures r[..at] == s[..at] && r[at .. at + |t|] == t && r[at + |t|..] == s[at + |t|..]
  {
    s[..at] + t + s[at + |t|..]
  }

  /** n zero bytes. */
  function Zeros(n: nat): (z: seq<byte>)
    ensures |z| == n && forall i | 0 <= i < n :: z[i] == 0
  {
    seq(n, _ => 0)
  }

  /** The observable state of a ByteBuffer, as a value. */
  datatype BufferState = BufferState(
    isDirect: bool,
    isReadOnly: bool,
    bytes: seq<byte>,   // the whole block behind the buffer
    offset: nat,        // where the buffer's index 0 sits in `bytes`
    capacity: nat,
    position: nat,
    limit: nat)
  {
    ghost predicate Valid() {
      position <= limit <= capacity <= INT_MAX && offset + capacity <= |bytes|
    }

    function Remaining(): int { limit - position }

    /** hasArray(): backed by an accessible array, i.e. heap and writable. */
    predicate HasArray() { !isDirect && !isReadOnly }

    /** The bytes between position and limit. */
    function Window(): (w: seq<byte>)
      requires Valid()
      ensures |w| == Remaining()
    {
      bytes[offset + position .. offset + limit]
    }
  }

  /** ByteBuffer.slice() on a value: a buffer over the remaining bytes. */
  function SliceState(s: BufferState): (t: BufferState)
    requires s.Valid()
    ensures t.Valid() && t.position == 0 && t.limit == t.capacity == s.Remaining()
    ensures t.Window() == s.Window()
    ensures t.isDirect == s.isDirect && t.isReadOnly == s.isReadOnly
  {
    BufferState(s.isDirect, s.isReadOnly, s.bytes, s.offset + s.position,
                s.limit - s.position, 0, s.limit - s.position)
  }

  /**
   * java.nio.ByteBuffer. `block` is the backing byte[] of a heap buffer or the
   * native block of a direct buffer; `offset` is arrayOffset() for a heap
   * buffer and the start of this buffer inside its block for a direct one.
   */
  class ByteBuffer {
    const isDirect: bool
    const isReadOnly: bool
    const block: Id
    const offset: nat
    const capacity: nat
    var position: nat
    var limit: nat
    var mark: int   // -1 when undefined

    ghost predicate Valid(heap: Memory)
      reads this
    {
      position <= limit <= capacity <= INT_MAX &&
      block < |heap| && offset + capacity <= |heap[block]| &&
      (mark == -1 || 0 <= mark <= position)
    }

    function Remaining(): int
      reads this
    {
      limit - position
    }

    /** hasArray(): a read-only heap buffer hides its array. */
    predicate HasArray() {
      !isDirect && !isReadOnly
    }

    function State(heap: Memory): (s: BufferState)
      reads this
      requires block < |heap|
      ensures Valid(heap) ==> s.Valid()
    {
      BufferState(isDirect, isReadOnly, heap[block], offset, capacity, position, limit)
    }

    constructor (isDirect: bool, isReadOnly: bool, block: Id, offset: nat,
                 capacity: nat, position: nat, limit: nat)
      ensures mark == -1
      ensures this.isDirect == isDirect && this.isReadOnly == isReadOnly && this.block == block
      ensures this.offset == offset && this.capacity == capacity
      ensures this.position == position && this.limit == limit
    {
      this.isDirect, this.isReadOnly, this.block := isDirect, isReadOnly, block;
      this.offset, this.capacity := offset, capacity;
      this.position, this.limit, this.mark := position, limit, -1;
    }

    /** ByteBuffer.get(int): absolute read, relative to index 0 (not position). */
    function Get(heap: Memory, i: nat): byte
      reads this
      requires Valid(heap) && i < limit
    {
      heap[block][offset + i]
    }

    /** ByteBuffer.mark() */
    method Mark()
      modifies this`mark
      ensures mark == position
    {
      mark := position;
    }

    /** ByteBuffer.reset(): back to the mark (the mark must be set). */
    method Reset()
      requires 0 <= mark <= limit
      modifies this`position
      ensures position == old(mark)
    {
      position := mark;
    }

    /**
     * ByteBuffer.put(byte[] src, int off, int len): relative bulk write of
     * src[off .. off + len]. Read-only buffers and overflows throw in Java;
     * callers here never reach those cases, so they are required away.
     */
    method PutBytes(heap: Memory, src: seq<byte>, off: nat, len: nat) returns (heap': Memory)
      requires Valid(heap) && !isReadOnly
      requires off + len <= |src| && len <= limit - position
      modifies this`position
      ensures Valid(heap') && position == old(position) + len
      ensures heap' == heap[block := Splice(heap[block], offset + old(position), src[off .. off + len])]
    {
      heap' := heap[block := Splice(heap[block], offset + position, src[off .. off + len])];
      position := position + len;
    }

    /**
     * ByteBuffer.put(ByteBuffer src): copies src's remaining bytes to this
     * buffer's position and advances both positions.
     */
    method Put(heap: Memory, src: ByteBuffer) returns (heap': Memory)
      requires Valid(heap) && src.Valid(heap) && !isReadOnly && src != this
      requires src.Remaining() <= Remaining()
      modifies this`position, src`position
      ensures position == old(position) + old(src.Remaining()) && src.position == src.limit
      ensures heap' == heap[block := Splice(heap[block], offset + old(position), old(src.State(heap).Window()))]
    {
      var w := src.State(heap).Window();
      heap' := heap[block := Splice(heap[block], offset + position, w)];
      position := position + |w|;
      src.position := src.limit;
    }
  }

  /** A method as GetMethodID identifies it: class, name and signature. */
  datatype MethodId = MethodId(cls: string, name: string, sig: string)

  const BYTE_BUFFER: string := "java/nio/ByteBuffer"

  const JNI_OK: int := 0
  const JNI_EVERSION: int := -3
  const JNI_VERSION_1_6: int := 0x0001_0006

  /** ReleaseByteArrayElements modes. */
  const JNI_COMMIT: int := 1
  const JNI_ABORT: int := 2

  /**
   * The JVM's answers to the lookups JNI_OnLoad makes: whether it offers a
   * version 1.6 environment, which classes FindClass finds, and which
   * (class, name, signature) triples GetMethodID resolves.
   */
  datatype Vm = Vm(supportsV16: bool, classes: set<string>, methods: set<MethodId>)
  {
    function GetEnv(version: int): int {
      if version == JNI_VERSION_1_6 && supportsV16 then JNI_OK else JNI_EVERSION
    }

    /** FindClass; None stands for NULL with a pending exception. */
    function FindClass(name: string): Option<string> {
      if name in classes then Some(name) else None
    }

    /** GetMethodID; None stands for NULL with a pending exception. */
    function GetMethodID(cls: string, name: string, sig: string): Option<MethodId> {
      if MethodId(cls, name, sig) in methods then Some(MethodId(cls, name, sig)) else None
    }
  }

  const ARRAY: MethodId := MethodId(BYTE_BUFFER, "array", "()[B")
  const ARRAY_OFFSET: MethodId := MethodId(BYTE_BUFFER, "arrayOffset", "()I")
  const REMAINING: MethodId := MethodId(BYTE_BUFFER, "remaining", "()I")

  /**
   * GetByteArrayElements: a new block holding a copy of array `a`; its
   * identity is the first unused one.
   */
  function GetByteArrayElements(heap: Memory, a: Id): (r: (Memory, Id))
    requires a < |heap|
    ensures r.1 == |heap| && |r.0| == |heap| + 1
    ensures r.0[r.1] == heap[a] && r.0[..|heap|] == heap
  {
    (heap + [heap[a]], |heap|)
  }

  /**
   * ReleaseByteArrayElements: mode 0 and JNI_COMMIT copy the view back into
   * the array, JNI_ABORT leaves the array alone. Whether the view stays
   * usable afterwards is not tracked.
   */
  function ReleaseByteArrayElements(heap: Memory, a: Id, view: Id, mode: int): (heap': Memory)
    requires a < |heap| && view < |heap|
    requires mode == 0 || mode == JNI_COMMIT || mode == JNI_ABORT
    ensures |heap'| == |heap|
    ensures mode != JNI_ABORT ==> heap'[a] == heap[view]
    ensures forall id | 0 <= id < |heap| && (id != a || mode == JNI_ABORT) :: heap'[id] == heap[id]
  {
    if mode != JNI_ABORT then heap[a := heap[view]] else heap
  }

  /** ByteBuffer.allocateDirect(n): a zeroed native block of n bytes. */
  method AllocateDirect(heap: Memory, n: nat) returns (b: ByteBuffer, heap': Memory)
    requires n <= INT_MAX
    ensures fresh(b) && b.Valid(heap') && b.block == |heap| && heap' == heap + [Zeros(n)]
    ensures b.isDirect && !b.isReadOnly && b.offset == 0
    ensures b.capacity == n && b.position == 0 && b.limit == n && b.mark == -1
  {
    heap' := heap + [Zeros(n)];
    b := new ByteBuffer(true, false, |heap|, 0, n, 0, n);
  }

  /** GetDirectBufferAddress: NULL unless the buffer is direct. */
  function GetDirectBufferAddress(b: ByteBuffer): (p: Ptr)
    ensures p == NULL <==> !b.isDirect
  {
    if b.isDirect then Ptr(Some(b.block), b.offset) else NULL
  }

  /** GetDirectBufferCapacity: -1 unless the buffer is direct. */
  function GetDirectBufferCapacity(b: ByteBuffer): (n: int)
    ensures b.isDirect ==> n == b.capacity
    ensures !b.isDirect ==> n == -1
  {
    if b.isDirect then b.capacity else -1
  }

  /** CallObjectMethod(b, array()): only arrays that hasArray() exposes. */
  function CallObjectMethod(b: ByteBuffer, mid: MethodId): (a: Id)
    requires b.HasArray() && mid == ARRAY
    ensures a == b.block
  {
    b.block
  }

  /** CallIntMethod(b, arrayOffset()) or CallIntMethod(b, remaining()). */
  function CallIntMethod(b: ByteBuffer, mid: MethodId): (n: int)
    reads b
    requires b.HasArray() && (mid == ARRAY_OFFSET || mid == REMAINING)
    ensures mid == ARRAY_OFFSET ==> n == b.offset
    ensures mid == REMAINING ==> n == b.Remaining()
  {
    if mid == ARRAY_OFFSET then b.offset else b.limit - b.position
  }
}
