/**
 * The native side of the buffer-marshalling layer: the cached ByteBuffer
 * lookups that JNI_OnLoad fills, the stodium_buffer record, the resolver that
 * turns a ByteBuffer handle into a pointer and a length, the two release
 * guards, the AS_* macros, and the boundary to the foreign primitives.
 */
module JniBuffer {
  import opened Runtime

  /** An argument handed to a foreign primitive. */
  datatype Arg =
    | In(p: Ptr)                       // AS_INPUT: a read-only pointer
    | Out(p: Ptr)                      // AS_OUTPUT: a writable pointer
    | Len(n: int)                      // a length or size passed by value
    | LenOut(current: nat)             // AS_OUTPUT_LEN: the address of a record's capacity, holding `current`
    | Val(n: int)                      // any other scalar
    | Null                             // a literal NULL

  /**
   * One call of a foreign primitive as the library saw it: its arguments,
   * the status it returned, what it stored through each AS_OUTPUT_LEN
   * argument (one entry per argument, meaningful only at those), and the
   * whole memory just before and just after the call.
   */
  datatype Call = Call(fn: string, args: seq<Arg>, status: int32, lengths: seq<nat>,
                       before: Memory, after: Memory)

  /**
   * The native library's global state: the four references JNI_OnLoad caches
   * (None is the NULL a C static starts with or a failed lookup leaves).
   */
  class Library {
    var byteBufferClass: Option<string>
    var methodArray: Option<MethodId>
    var methodArrayOffset: Option<MethodId>
    var methodRemaining: Option<MethodId>

    constructor ()
      ensures byteBufferClass == None && methodArray == None
      ensures methodArrayOffset == None && methodRemaining == None
    {
      byteBufferClass, methodArray, methodArrayOffset, methodRemaining := None, None, None, None;
    }

    /** JNI_OnLoad has filled every cached reference. */
    ghost predicate Loaded()
      reads this
    {
      byteBufferClass == Some(BYTE_BUFFER) && methodArray == Some(ARRAY) &&
      methodArrayOffset == Some(ARRAY_OFFSET) && methodRemaining == Some(REMAINING)
    }
  }

  /**
   * JNI_OnLoad: asks for a version 1.6 environment, then looks up the
   * ByteBuffer class and its array(), arrayOffset() and remaining() methods,
   * storing each result before checking it; the first failure returns -1.
   */
  method JniOnLoad(lib: Library, vm: Vm) returns (r: int32)
    modifies lib
    ensures r == -1 || r == JNI_VERSION_1_6
    ensures r == JNI_VERSION_1_6 <==>
      vm.supportsV16 && BYTE_BUFFER in vm.classes &&
      ARRAY in vm.methods && ARRAY_OFFSET in vm.methods && REMAINING in vm.methods
    ensures r == JNI_VERSION_1_6 ==> lib.Loaded()
    ensures !vm.supportsV16 ==> unchanged(lib)
    // each lookup is stored before it is checked, so a failure stays cached
    // and the lookups after it keep whatever they held
    ensures vm.supportsV16 ==>
              lib.byteBufferClass == (if BYTE_BUFFER in vm.classes then Some(BYTE_BUFFER) else None)
    ensures vm.supportsV16 && BYTE_BUFFER in vm.classes ==>
              lib.methodArray == (if ARRAY in vm.methods then Some(ARRAY) else None)
    ensures !(vm.supportsV16 && BYTE_BUFFER in vm.classes) ==> lib.methodArray == old(lib.methodArray)
    ensures vm.supportsV16 && BYTE_BUFFER in vm.classes && ARRAY in vm.methods ==>
              lib.methodArrayOffset == (if ARRAY_OFFSET in vm.methods then Some(ARRAY_OFFSET) else None)
    ensures !(vm.supportsV16 && BYTE_BUFFER in vm.classes && ARRAY in vm.methods) ==>
              lib.methodArrayOffset == old(lib.methodArrayOffset)
    ensures vm.supportsV16 && BYTE_BUFFER in vm.classes && ARRAY in vm.methods && ARRAY_OFFSET in vm.methods ==>
              lib.methodRemaining == (if REMAINING in vm.methods then Some(REMAINING) else None)
    ensures !(vm.supportsV16 && BYTE_BUFFER in vm.classes && ARRAY in vm.methods && ARRAY_OFFSET in vm.methods) ==>
              lib.methodRemaining == old(lib.methodRemaining)
  {
    if vm.GetEnv(JNI_VERSION_1_6) != JNI_OK {
      return -1;
    }
    lib.byteBufferClass := vm.FindClass(BYTE_BUFFER);
    if lib.byteBufferClass.None? {
      return -1;
    }
    var cls := lib.byteBufferClass.value;
    lib.methodArray := vm.GetMethodID(cls, ARRAY.name, ARRAY.sig);
    if lib.methodArray.None? {
      return -1;
    }
    lib.methodArrayOffset := vm.GetMethodID(cls, ARRAY_OFFSET.name, ARRAY_OFFSET.sig);
    if lib.methodArrayOffset.None? {
      return -1;
    }
    lib.methodRemaining := vm.GetMethodID(cls, REMAINING.name, REMAINING.sig);
    if lib.methodRemaining.None? {
      return -1;
    }
    return JNI_VERSION_1_6;
  }

  /**
   * struct stodium_buffers: where a Java buffer's bytes sit for native code.
   * `backingArray` is only meaningful when the buffer is not direct. The
   * record lives on the native stack of one binding, so it is a value here:
   * the resolver returns it instead of filling it through a pointer.
   */
  datatype StodiumBuffer = StodiumBuffer(content: Ptr, offset: nat, capacity: nat,
                                         isDirect: bool, backingArray: Option<Id>)
  {
    /** The pointer and length stay inside the block they address. */
    ghost predicate InBounds(heap: Memory) {
      content.block.Some? ==>
        content.block.value < |heap| &&
        0 <= content.index && content.index + offset + capacity <= |heap[content.block.value]|
    }

    /** The bytes AS_INPUT / AS_INPUT_LEN describe. */
    ghost function Region(heap: Memory): seq<byte>
      requires InBounds(heap)
    {
      if content.block.None? then []
      else heap[content.block.value][content.index + offset .. content.index + offset + capacity]
    }
  }

  /** AS_INPUT(type, buffer) */
  function AsInput(b: StodiumBuffer): Arg
  {
    In(Add(b.content, b.offset))
  }

  /** AS_OUTPUT(type, buffer) */
  function AsOutput(b: StodiumBuffer): Arg
  {
    Out(Add(b.content, b.offset))
  }

  /** AS_INPUT_LEN(type, buffer): the capacity, by value. */
  function AsInputLen(b: StodiumBuffer): Arg
  {
    Len(b.capacity)
  }

  /** AS_OUTPUT_LEN(type, buffer): the address of the capacity field. */
  function AsOutputLen(b: StodiumBuffer): Arg
  {
    LenOut(b.capacity)
  }

  /** A pointer moved by a Java int, as `AS_OUTPUT(...) + dst_offset` does. */
  function Offset(a: Arg, n: int32): (r: Arg)
    requires a.In? || a.Out?
    ensures r.In? == a.In? && r.Out? == a.Out?
    ensures r.p.block == a.p.block && r.p.index == a.p.index + n
  {
    if a.In? then In(Add(a.p, n)) else Out(Add(a.p, n))
  }

  const TWO_TO_64: int := 0x1_0000_0000_0000_0000

  /** A C conversion of a Java int to a 64-bit unsigned type (size_t or
      unsigned long long): negative values wrap modulo 2^64. */
  function Unsigned64(x: int32): (r: nat)
    ensures r < TWO_TO_64
    ensures r % TWO_TO_64 == x % TWO_TO_64
    ensures x >= 0 ==> r == x
  {
    if x < 0 then x + TWO_TO_64 else x
  }

  /**
   * A handle the resolver can work with: absent, or a well-formed buffer
   * that is direct or exposes its array (array() throws on any other).
   */
  ghost predicate Usable(b: ByteBuffer?, heap: Memory)
    reads b
  {
    b == null || (b.Valid(heap) && (b.isDirect || b.HasArray()))
  }

  /**
   * The bytes the resolver makes available for a buffer in the given state:
   * a direct buffer from its base address over its whole capacity, a heap
   * buffer from arrayOffset() over remaining() bytes. Neither starts at the
   * position.
   */
  function ResolvedRegion(s: BufferState): (r: seq<byte>)
    requires s.Valid()
    ensures s.isDirect ==> r == s.bytes[s.offset .. s.offset + s.capacity]
    ensures !s.isDirect ==> r == s.bytes[s.offset .. s.offset + s.Remaining()]
  {
    var len := if s.isDirect then s.capacity else s.Remaining();
    s.bytes[s.offset .. s.offset + len]
  }

  /** The value AS_INPUT_LEN yields for a handle once resolved. */
  function ResolvedLength(b: ByteBuffer?): (n: int)
    reads b
    ensures b == null ==> n == 0
    ensures b != null && b.isDirect ==> n == b.capacity
    ensures b != null && !b.isDirect ==> n == b.Remaining()
  {
    if b == null then 0 else if b.isDirect then b.capacity else b.limit - b.position
  }

  /**
   * The record stodium_get_buffer fills for a handle, given the memory it
   * starts from: a heap buffer's copy is the next block to be allocated.
   */
  function Resolve(heap: Memory, b: ByteBuffer?): StodiumBuffer
    reads b
    requires Usable(b, heap)
  {
    if b == null then StodiumBuffer(NULL, 0, 0, true, None)
    else if b.isDirect then StodiumBuffer(Ptr(Some(b.block), b.offset), 0, b.capacity, true, None)
    else StodiumBuffer(Ptr(Some(|heap|), 0), b.offset, b.limit - b.position, false, Some(b.block))
  }

  /** The memory after stodium_get_buffer: one more block, a copy of the array, for a heap buffer. */
  function Pin(heap: Memory, b: ByteBuffer?): Memory
    reads b
    requires Usable(b, heap)
  {
    if b == null || b.isDirect then heap else heap + [heap[b.block]]
  }

  /**
   * stodium_get_buffer: NULL resolves to an empty direct record; a direct
   * buffer to its address with offset 0 and its full capacity; a heap buffer
   * to a fresh copy of array(), offset arrayOffset(), capacity remaining().
   * Either way the record describes the bytes ResolvedRegion names.
   */
  method GetBuffer(heap: Memory, lib: Library, jbuffer: ByteBuffer?) returns (dst: StodiumBuffer, heap': Memory)
    requires lib.Loaded() && Usable(jbuffer, heap)
    ensures dst == Resolve(heap, jbuffer) && heap' == Pin(heap, jbuffer)
    ensures dst.InBounds(heap') && Releasable(dst, heap')
    ensures jbuffer != null ==> dst.Region(heap') == ResolvedRegion(jbuffer.State(heap))
  {
    if jbuffer == null {
      dst := StodiumBuffer(NULL, 0, 0, true, None);
      return dst, heap;
    }
    var content := GetDirectBufferAddress(jbuffer);
    if content != NULL {
      var capacity := GetDirectBufferCapacity(jbuffer);
      dst := StodiumBuffer(content, 0, capacity, true, None);
      return dst, heap;
    }
    var backingArray := CallObjectMethod(jbuffer, lib.methodArray.value);
    var (pinned, view) := GetByteArrayElements(heap, backingArray);
    var offset := CallIntMethod(jbuffer, lib.methodArrayOffset.value);
    var capacity := CallIntMethod(jbuffer, lib.methodRemaining.value);
    dst := StodiumBuffer(Ptr(Some(view), 0), offset, capacity, false, Some(backingArray));
    heap' := pinned;
  }

  /**
   * What a record needs before it can be released: nothing for a direct
   * record; for a heap one, a copy and a backing array that both exist.
   */
  ghost predicate Releasable(b: StodiumBuffer, heap: Memory)
  {
    !b.isDirect ==>
      b.content.block.Some? && b.backingArray.Some? &&
      b.content.block.value < |heap| && b.backingArray.value < |heap|
  }

  /**
   * stodium_release_output: nothing for a direct record; otherwise the copy
   * is written back to the backing array (mode 0). The capacity is not read.
   */
  method ReleaseOutput(heap: Memory, output: ByteBuffer?, buffer: StodiumBuffer) returns (heap': Memory)
    requires Releasable(buffer, heap)
    ensures |heap'| == |heap|
    ensures buffer.isDirect ==> heap' == heap
    ensures !buffer.isDirect ==>
      heap' == heap[buffer.backingArray.value := heap[buffer.content.block.value]]
  {
    if buffer.isDirect {
      return heap;
    }
    heap' := ReleaseByteArrayElements(heap, buffer.backingArray.value, buffer.content.block.value, 0);
  }

  /**
   * stodium_release_input: nothing for a direct record or a NULL content
   * pointer; otherwise the copy is released with JNI_ABORT. Either way no
   * byte of memory changes: whatever the primitive wrote into a copy is lost.
   */
  method ReleaseInput(heap: Memory, input: ByteBuffer?, buffer: StodiumBuffer) returns (heap': Memory)
    requires Releasable(buffer, heap)
    ensures heap' == heap
  {
    if buffer.isDirect || buffer.content == NULL {
      return heap;
    }
    heap' := ReleaseByteArrayElements(heap, buffer.backingArray.value, buffer.content.block.value, JNI_ABORT);
  }

  /** The blocks a primitive may write: those its writable pointers reach. */
  ghost function OutBlocks(args: seq<Arg>): set<Id>
  {
    set i | 0 <= i < |args| && args[i].Out? && args[i].p.block.Some? :: args[i].p.block.value
  }

  /**
   * A libsodium primitive, seen from the binding: it may overwrite the blocks
   * its writable pointers reach (keeping their sizes), returns some status,
   * and stores some value through each AS_OUTPUT_LEN argument. `call`
   * records what it saw.
   */
  method CallPrimitive(heap: Memory, fn: string, args: seq<Arg>)
    returns (status: int32, lengths: seq<nat>, heap': Memory, ghost call: Call)
    ensures |heap'| == |heap| && |lengths| == |args|
    ensures forall id | 0 <= id < |heap| :: |heap'[id]| == |heap[id]|
    ensures forall id | 0 <= id < |heap| && id !in OutBlocks(args) :: heap'[id] == heap[id]
    ensures call == Call(fn, args, status, lengths, heap, heap')
  {
    status := *;
    lengths := seq(|args|, _ => 0);
    heap' := heap;
    call := Call(fn, args, status, lengths, heap, heap');
  }

  /** A slice makes the resolver see exactly the buffer's remaining bytes. */
  lemma SlicedRegionIsWindow(s: BufferState)
    requires s.Valid()
    ensures ResolvedRegion(SliceState(s)) == s.Window()
  {
  }

  /**
   * For a heap buffer the region starts at arrayOffset(), not at the
   * position: a buffer that has been read from exposes its first bytes.
   */
  lemma HeapRegionIgnoresPosition(s: BufferState)
    requires s.Valid() && !s.isDirect && s.position < s.limit
    ensures ResolvedRegion(s)[0] == s.bytes[s.offset]
    ensures s.Window()[0] == s.bytes[s.offset + s.position]
    ensures |ResolvedRegion(s)| == |s.Window()|
  {
  }

  /** For a direct buffer the region is the whole capacity. */
  lemma DirectRegionIgnoresLimits(s: BufferState)
    requires s.Valid() && s.isDirect
    ensures |ResolvedRegion(s)| == s.capacity >= |s.Window()|
    ensures ResolvedRegion(s)[s.position .. s.limit] == s.Window()
  {
    var r := ResolvedRegion(s);
    forall i | 0 <= i < s.limit - s.position
      ensures r[s.position .. s.limit][i] == s.Window()[i]
    {
      assert r[s.position + i] == s.bytes[s.offset + s.position + i];
    }
  }
}
