/**
 * The exported bindings. Every one of them follows the same pattern:
 * resolve each ByteBuffer handle with stodium_get_buffer, call one libsodium
 * primitive with the pointers, lengths and scalars the AS_* macros and casts
 * derive, release some handles as outputs (written back) and the others as
 * inputs (not written back), and return the primitive's status unchanged.
 * `Marshal` is that pattern; each binding below fixes the order in which it
 * resolves its handles, the argument list it builds, and the order and
 * kind of its releases, exactly as its C body does.
 */
module JniAdapters {
  import opened Runtime
  import opened JniBuffer

  /**
   * How a binding builds one argument of its primitive. `h` indexes the
   * binding's handles in the order it resolves them.
   */
  datatype Slot =
    | Output(h: nat)                  // AS_OUTPUT(type, buffer)
    | OutputPlus(h: nat, off: int32)  // AS_OUTPUT(type, buffer) + a jint offset
    | Input(h: nat)                   // AS_INPUT(type, buffer)
    | InputPlus(h: nat, off: int32)   // AS_INPUT(type, buffer) + a jint offset
    | InputLen(h: nat)                // AS_INPUT_LEN(type, buffer)
    | OutputLen(h: nat)               // AS_OUTPUT_LEN(type, buffer)
    | Size(n: int32)                  // a jint cast to size_t or unsigned long long
    | Scalar(n: int32)                // a jint passed as a C int
    | NullArg                         // a literal NULL
  {
    /** The slot names a handle among the first `count`. */
    predicate Refers(count: nat) {
      (Output? || OutputPlus? || Input? || InputPlus? || InputLen? || OutputLen?) ==> h < count
    }

    /** The slot hands the primitive a writable pointer. */
    predicate Writable() {
      Output? || OutputPlus?
    }
  }

  /** How a binding gives a handle back. */
  datatype Release =
    | ReleaseOut(h: nat)   // stodium_release_output
    | ReleaseIn(h: nat)    // stodium_release_input

  /** The handles a binding holds once it has resolved the first `n`. */
  function Acquired(n: nat): (s: set<nat>)
    ensures forall j: nat :: j in s <==> j < n
    ensures |s| == n
  {
    if n == 0 then {} else Acquired(n - 1) + {n - 1}
  }

  /**
   * The handles still held after the releases `rels`, in order, starting
   * from `held`; None as soon as a release names a handle that is not held
   * (one never resolved, or one released already).
   */
  function Unpin(held: set<nat>, rels: seq<Release>): Option<set<nat>>
    decreases |rels|
  {
    if rels == [] then Some(held)
    else if rels[0].h in held then Unpin(held - {rels[0].h}, rels[1..])
    else None
  }

  /**
   * Releases `rels` give back each of `n` resolved handles exactly once: as
   * many releases as handles, each naming a resolved handle, no two naming
   * the same one.
   */
  predicate ReleasedOnce(n: nat, rels: seq<Release>) {
    |rels| == n &&
    (forall r | 0 <= r < |rels| :: rels[r].h < n) &&
    (forall r, q | 0 <= r < q < |rels| :: rels[r].h != rels[q].h)
  }

  /** How many of the releases `rels` give back handle `j`. */
  function Releases(rels: seq<Release>, j: nat): nat
    decreases |rels|
  {
    if rels == [] then 0
    else (if rels[0].h == j then 1 else 0) + Releases(rels[1..], j)
  }

  /** No release names `j` exactly when `j` is counted zero times. */
  lemma {:induction false} ReleasesZero(rels: seq<Release>, j: nat)
    ensures Releases(rels, j) == 0 <==> forall r | 0 <= r < |rels| :: rels[r].h != j
    decreases |rels|
  {
    if rels != [] {
      ReleasesZero(rels[1..], j);
      assert forall r | 1 <= r < |rels| :: rels[r] == rels[1..][r - 1];
      if Releases(rels[1..], j) == 0 && rels[0].h != j {
        forall r | 0 <= r < |rels| ensures rels[r].h != j {
          if r > 0 { assert rels[1..][r - 1].h != j; }
        }
      }
    }
  }

  /**
   * Unpinning from `held` succeeds exactly when every release names a held
   * handle and none is named twice; what is left held is the handles not
   * named at all.
   */
  lemma {:induction false} UnpinCounts(held: set<nat>, rels: seq<Release>)
    ensures Unpin(held, rels).Some? <==>
              (forall r | 0 <= r < |rels| :: rels[r].h in held) &&
              (forall j | j in held :: Releases(rels, j) <= 1)
    ensures Unpin(held, rels).Some? ==>
              forall j: nat :: j in Unpin(held, rels).value <==> j in held && Releases(rels, j) == 0
    decreases |rels|
  {
    if rels != [] {
      var x := rels[0].h;
      var rest := rels[1..];
      assert forall r | 1 <= r < |rels| :: rels[r] == rest[r - 1];
      assert forall j: nat :: Releases(rels, j) == (if x == j then 1 else 0) + Releases(rest, j);
      if x in held {
        var held' := held - {x};
        UnpinCounts(held', rest);
        ReleasesZero(rest, x);
        if Unpin(held', rest).Some? {
          assert forall r | 0 <= r < |rels| :: rels[r].h in held by {
            forall r | 0 <= r < |rels| ensures rels[r].h in held {
              if r > 0 { assert rest[r - 1].h in held'; }
            }
          }
          forall r | 0 <= r < |rest| ensures rest[r].h != x {
            assert rest[r].h in held';
          }
          assert Releases(rest, x) == 0;
          forall j | j in held ensures Releases(rels, j) <= 1 {
            if j != x { assert j in held'; }
          }
        }
      }
    }
  }

  /**
   * Releases naming distinct held handles, as many as are held, give back
   * every one of them.
   */
  lemma {:induction false} DistinctUnpin(held: set<nat>, rels: seq<Release>)
    requires forall r | 0 <= r < |rels| :: rels[r].h in held
    requires forall r, q | 0 <= r < q < |rels| :: rels[r].h != rels[q].h
    requires |rels| == |held|
    ensures Unpin(held, rels) == Some({})
    decreases |rels|
  {
    if rels == [] {
      assert held == {};
    } else {
      var x := rels[0].h;
      var rest := rels[1..];
      forall r | 0 <= r < |rest| ensures rest[r].h in held - {x} {
        assert rest[r] == rels[r + 1];
      }
      DistinctUnpin(held - {x}, rest);
    }
  }

  /**
   * Given back exactly once, counted: unpinning the releases from the `n`
   * resolved handles leaves none pinned, and each handle is named by exactly
   * one release.
   */
  lemma ReleasedOnceCounts(n: nat, rels: seq<Release>)
    requires ReleasedOnce(n, rels)
    ensures Unpin(Acquired(n), rels) == Some({})
    ensures forall j: nat | j < n :: Releases(rels, j) == 1
  {
    DistinctUnpin(Acquired(n), rels);
    UnpinCounts(Acquired(n), rels);
    forall j: nat | j < n
      ensures Releases(rels, j) == 1
    {
      assert j in Acquired(n) && j !in Unpin(Acquired(n), rels).value;
    }
  }

  /** The argument a slot yields once the handles are resolved. */
  function Derive(s: Slot, recs: seq<StodiumBuffer>): Arg
    requires s.Refers(|recs|)
  {
    match s
    case Output(h) => AsOutput(recs[h])
    case OutputPlus(h, off) => Offset(AsOutput(recs[h]), off)
    case Input(h) => AsInput(recs[h])
    case InputPlus(h, off) => Offset(AsInput(recs[h]), off)
    case InputLen(h) => AsInputLen(recs[h])
    case OutputLen(h) => AsOutputLen(recs[h])
    case Size(n) => Len(Unsigned64(n))
    case Scalar(n) => Val(n)
    case NullArg => Null
  }

  /** The whole argument list of the primitive call. */
  function Layout(slots: seq<Slot>, recs: seq<StodiumBuffer>): (args: seq<Arg>)
    requires forall k | 0 <= k < |slots| :: slots[k].Refers(|recs|)
    ensures |args| == |slots|
  {
    seq(|slots|, k requires 0 <= k < |slots| => Derive(slots[k], recs))
  }

  /**
   * The records after the primitive stored a value through each
   * AS_OUTPUT_LEN argument into the capacity field of the record it names.
   * Nothing but capacities changes.
   */
  function StoreLengths(recs: seq<StodiumBuffer>, slots: seq<Slot>, lengths: seq<nat>): (r: seq<StodiumBuffer>)
    requires |lengths| == |slots|
    ensures |r| == |recs|
    ensures forall j | 0 <= j < |recs| :: r[j] == recs[j].(capacity := r[j].capacity)
    decreases |slots|
  {
    if slots == [] then recs
    else
      var k := |slots| - 1;
      var stored := StoreLengths(recs, slots[..k], lengths[..k]);
      if slots[k].OutputLen? && slots[k].h < |stored|
      then stored[slots[k].h := stored[slots[k].h].(capacity := lengths[k])]
      else stored
  }

  const TWO_TO_32: int := 0x1_0000_0000

  /**
   * One store through AS_OUTPUT_LEN(unsigned long long, ...) as written, on a
   * 32-bit little-endian ABI, where size_t is 4 bytes: the 8-byte value
   * lands on the 4-byte capacity and the 4 bytes after it. The low word
   * becomes the capacity; the lowest byte of the high word lands on
   * is_direct.
   */
  function StoreLength32(rec: StodiumBuffer, v: nat): StodiumBuffer
    requires v < TWO_TO_64
  {
    rec.(capacity := v % TWO_TO_32, isDirect := (v / TWO_TO_32) % 256 != 0)
  }

  /**
   * On a 32-bit ABI a direct record that receives any length below 2^32
   * (the high word is 0) is no longer direct, and it has no backing array:
   * stodium_release_output takes the heap path and releases an array
   * handle that stodium_get_buffer never set.
   */
  lemma StoreLength32DropsDirect(rec: StodiumBuffer, v: nat, heap: Memory)
    requires rec.isDirect && rec.backingArray.None?
    requires v < TWO_TO_32
    ensures !StoreLength32(rec, v).isDirect
    ensures StoreLength32(rec, v).capacity == v
    ensures !Releasable(StoreLength32(rec, v), heap)
  {
  }

  /** A release that writes a copy back: an output release of a heap record. */
  ghost predicate CopiesBack(rel: Release, recs: seq<StodiumBuffer>, heap: Memory)
  {
    rel.ReleaseOut? && rel.h < |recs| && !recs[rel.h].isDirect && Releasable(recs[rel.h], heap)
  }

  /** The memory after the releases `rels`, in order, starting from `heap`. */
  ghost function ReleaseAll(heap: Memory, recs: seq<StodiumBuffer>, rels: seq<Release>): (r: Memory)
    ensures |r| == |heap|
  {
    if rels == [] then heap
    else
      var h := ReleaseAll(heap, recs, rels[..|rels| - 1]);
      var last := rels[|rels| - 1];
      if CopiesBack(last, recs, h)
      then h[recs[last.h].backingArray.value := h[recs[last.h].content.block.value]]
      else h
  }

  /**
   * `rec` is what stodium_get_buffer made of handle `b`, for a binding that
   * started from `heap` and has since reached `mem`: a heap buffer's copy is
   * a block allocated after `heap`, holding what the array held in `heap`.
   */
  ghost predicate Resolved(rec: StodiumBuffer, b: ByteBuffer?, heap: Memory, mem: Memory)
    reads b
  {
    if b == null then rec == StodiumBuffer(NULL, 0, 0, true, None)
    else if b.isDirect then
      rec == StodiumBuffer(Ptr(Some(b.block), b.offset), 0, b.capacity, true, None) && b.block < |heap|
    else
      rec.content.block.Some? && rec.content.index == 0 &&
      |heap| <= rec.content.block.value < |mem| &&
      b.block < |heap| && mem[rec.content.block.value] == heap[b.block] &&
      rec.offset == b.offset && rec.capacity == b.limit - b.position &&
      !rec.isDirect && rec.backingArray == Some(b.block)
  }

  /** Release `r` writes the copy of a heap buffer over array `id`. */
  ghost predicate WritesBack(hs: seq<ByteBuffer?>, rels: seq<Release>, r: nat, id: Id)
  {
    r < |rels| && rels[r].ReleaseOut? && rels[r].h < |hs| &&
    hs[rels[r].h] != null && !hs[rels[r].h].isDirect && hs[rels[r].h].block == id
  }

  /** Release `r` writes a copy back, and no later release writes the same array. */
  ghost predicate LastWriteBack(hs: seq<ByteBuffer?>, rels: seq<Release>, r: nat)
  {
    r < |rels| && rels[r].h < |hs| && hs[rels[r].h] != null &&
    WritesBack(hs, rels, r, hs[rels[r].h].block) &&
    forall r' | r < r' < |rels| :: !WritesBack(hs, rels, r', hs[rels[r].h].block)
  }

  /** The primitive gets a writable pointer straight into block `id` (a direct buffer's). */
  ghost predicate WritesInPlace(hs: seq<ByteBuffer?>, slots: seq<Slot>, k: nat, id: Id)
  {
    k < |slots| && slots[k].Writable() && slots[k].h < |hs| &&
    hs[slots[k].h] != null && hs[slots[k].h].isDirect && hs[slots[k].h].block == id
  }

  /**
   * A direct buffer's native block is never a Java array: no handle among
   * `hs` is direct over a block that another one uses as its array.
   */
  ghost predicate Apart(hs: seq<ByteBuffer?>)
  {
    forall i, j | 0 <= i < |hs| && 0 <= j < |hs| && hs[i] != null && hs[j] != null &&
                  hs[i].isDirect && !hs[j].isDirect :: hs[i].block != hs[j].block
  }

  /**
   * What one run of the binding pattern leaves: `recs` are the records as
   * stodium_get_buffer filled them, the arguments are what the macros derive
   * from them (`ArgumentsPass` says what that means), the memory the primitive starts from agrees with `heap` on every
   * original block, the primitive writes only where its writable pointers
   * reach, and the memory at the end is what the releases make of what the
   * primitive left.
   */
  ghost predicate Marshalled(heap: Memory, hs: seq<ByteBuffer?>, slots: seq<Slot>, rels: seq<Release>,
                             recs: seq<StodiumBuffer>, call: Call, heap': Memory)
    reads hs
  {
    (forall j | 0 <= j < |hs| :: Usable(hs[j], heap)) &&
    (forall k | 0 <= k < |slots| :: slots[k].Refers(|hs|)) &&
    (forall r | 0 <= r < |rels| :: rels[r].h < |hs|) &&
    |recs| == |hs| && call.args == Layout(slots, recs) &&
    |heap| <= |call.before| && (forall id | 0 <= id < |heap| :: call.before[id] == heap[id]) &&
    (forall j | 0 <= j < |hs| :: Resolved(recs[j], hs[j], heap, call.before)) &&
    |call.after| == |call.before| &&
    (forall id | 0 <= id < |call.before| && id !in OutBlocks(call.args) :: call.after[id] == call.before[id]) &&
    heap' == ReleaseAll(call.after, recs, rels)
  }

  /**
   * The releases of a binding, in its order, starting from the memory the
   * primitive left. Every handle is pinned at the start; `pinned` holds the
   * handles not yet released, and each release gives back one of them, so
   * none is released twice and none is left pinned.
   */
  method ReleaseEach(after: Memory, hs: seq<ByteBuffer?>, records: seq<StodiumBuffer>,
                     ghost recs: seq<StodiumBuffer>, rels: seq<Release>)
    returns (heap': Memory, ghost pinned: set<nat>)
    requires |records| == |recs| == |hs|
    requires forall j | 0 <= j < |hs| :: records[j] == recs[j].(capacity := records[j].capacity)
    requires forall j | 0 <= j < |hs| :: Releasable(records[j], after)
    requires ReleasedOnce(|hs|, rels)
    ensures heap' == ReleaseAll(after, recs, rels)
    ensures pinned == {}
  {
    var h := after;
    pinned := Acquired(|hs|);
    var i := 0;
    while i < |rels|
      invariant 0 <= i <= |rels| && |h| == |after|
      invariant h == ReleaseAll(after, recs, rels[..i])
      invariant |pinned| == |rels| - i && forall r | i <= r < |rels| :: rels[r].h in pinned
    {
      assert rels[..i + 1][..i] == rels[..i];
      var j := rels[i].h;
      pinned := pinned - {j};
      if rels[i].ReleaseOut? {
        h := ReleaseOutput(h, hs[j], records[j]);
      } else {
        h := ReleaseInput(h, hs[j], records[j]);
      }
      i := i + 1;
    }
    assert rels[..|rels|] == rels;
    heap' := h;
  }

  /**
   * The binding pattern. Resolves `hs` in order, calls primitive `fn` with
   * the arguments `slots` describe, releases as `rels` says, and returns the
   * primitive's status. `recs` are the records as resolved: each is what
   * stodium_get_buffer makes of its handle, and the memory the primitive
   * starts from agrees with `heap` on every original block. The memory at the
   * end is what the releases make of what the primitive left; the lengths
   * the primitive stored into the records play no part in it. The release
   * list must give back every resolved handle exactly once, and `pinned`,
   * the handles still pinned, is empty at the end. The lemmas after it say
   * what that means block by block.
   */
  method Marshal(heap: Memory, lib: Library, fn: string, hs: seq<ByteBuffer?>,
                 slots: seq<Slot>, rels: seq<Release>)
    returns (result: int32, heap': Memory, ghost recs: seq<StodiumBuffer>, ghost call: Call,
             ghost pinned: set<nat>)
    requires lib.Loaded()
    requires forall j | 0 <= j < |hs| :: Usable(hs[j], heap)
    requires forall k | 0 <= k < |slots| :: slots[k].Refers(|hs|)
    requires ReleasedOnce(|hs|, rels)
    ensures result == call.status && call.fn == fn
    ensures Marshalled(heap, hs, slots, rels, recs, call, heap')
    ensures pinned == {}
  {
    // stodium_get_buffer for every handle
    var h := heap;
    var records: seq<StodiumBuffer> := [];
    var i := 0;
    while i < |hs|
      invariant 0 <= i <= |hs| && |records| == i
      invariant |heap| <= |h| && forall id | 0 <= id < |heap| :: h[id] == heap[id]
      invariant forall j | 0 <= j < i :: Resolved(records[j], hs[j], heap, h)
      invariant forall j | 0 <= j < |hs| :: Usable(hs[j], h)
    {
      var rec;
      rec, h := GetBuffer(h, lib, hs[i]);
      records := records + [rec];
      i := i + 1;
    }
    recs := records;

    // the primitive
    var status, lengths, after;
    status, lengths, after, call := CallPrimitive(h, fn, Layout(slots, records));
    records := StoreLengths(records, slots, lengths);

    // stodium_release_output / stodium_release_input, in the binding's order
    forall j | 0 <= j < |hs|
      ensures Releasable(records[j], after)
    {
      assert Resolved(recs[j], hs[j], heap, call.before);
    }
    h, pinned := ReleaseEach(after, hs, records, recs, rels);
    result, heap' := status, h;
  }

  /**
   * The array of a heap buffer released as output ends up holding what the
   * primitive left in its copy, unless a later output release writes the
   * same array.
   */
  lemma CopyBackWins(hs: seq<ByteBuffer?>, recs: seq<StodiumBuffer>, rels: seq<Release>,
                     heap: Memory, before: Memory, after: Memory, r: nat)
    requires |recs| == |hs| && forall j | 0 <= j < |hs| :: Resolved(recs[j], hs[j], heap, before)
    requires |heap| <= |before| == |after|
    requires forall r | 0 <= r < |rels| :: rels[r].h < |hs|
    requires r < |rels| && LastWriteBack(hs, rels, r)
    requires Resolved(recs[rels[r].h], hs[rels[r].h], heap, before)
    ensures ReleaseAll(after, recs, rels)[hs[rels[r].h].block] == after[recs[rels[r].h].content.block.value]
  {
    var j := rels[r].h;
    forall r' | r < r' < |rels| && rels[r'].ReleaseOut? && !recs[rels[r'].h].isDirect
      ensures recs[rels[r'].h].backingArray != recs[j].backingArray
    {
      assert Resolved(recs[rels[r'].h], hs[rels[r'].h], heap, before);
      assert !WritesBack(hs, rels, r', hs[j].block);
    }
    ReleaseAllWritesBack(after, recs, rels, r, |heap|);
  }

  /** A block no output release writes back ends up as the primitive left it. */
  lemma ReleasesKeep(hs: seq<ByteBuffer?>, recs: seq<StodiumBuffer>, rels: seq<Release>,
                     heap: Memory, before: Memory, after: Memory, id: Id)
    requires |recs| == |hs| && forall j | 0 <= j < |hs| :: Resolved(recs[j], hs[j], heap, before)
    requires forall r | 0 <= r < |rels| :: rels[r].h < |hs|
    requires id < |heap| <= |after|
    requires forall r | 0 <= r < |rels| :: !WritesBack(hs, rels, r, id)
    ensures ReleaseAll(after, recs, rels)[id] == after[id]
  {
    forall r | 0 <= r < |rels| && rels[r].ReleaseOut? && !recs[rels[r].h].isDirect
      ensures recs[rels[r].h].backingArray != Some(id)
    {
      assert Resolved(recs[rels[r].h], hs[rels[r].h], heap, before);
      assert !WritesBack(hs, rels, r, id);
    }
    ReleaseAllKeeps(after, recs, rels, id);
  }

  /**
   * The primitive gets no writable pointer into an original block other
   * than a direct buffer's: copies are new blocks, and NULL reaches none.
   */
  lemma OnlyDirectOutputsWritten(hs: seq<ByteBuffer?>, recs: seq<StodiumBuffer>, slots: seq<Slot>,
                                 heap: Memory, before: Memory, id: Id)
    requires |recs| == |hs| && forall j | 0 <= j < |hs| :: Resolved(recs[j], hs[j], heap, before)
    requires forall k | 0 <= k < |slots| :: slots[k].Refers(|hs|)
    requires id < |heap|
    requires forall k | 0 <= k < |slots| :: !WritesInPlace(hs, slots, k, id)
    ensures id !in OutBlocks(Layout(slots, recs))
  {
    var args := Layout(slots, recs);
    forall k | 0 <= k < |args| && args[k].Out? && args[k].p.block.Some?
      ensures args[k].p.block.value != id
    {
      assert Resolved(recs[slots[k].h], hs[slots[k].h], heap, before);
      assert !WritesInPlace(hs, slots, k, id);
    }
  }

  /**
   * An output release writes the copy back over its array, and no later
   * release undoes that unless it writes the same array. Needs the copies to
   * be blocks above every array (`lo` separates them).
   */
  lemma {:induction false} ReleaseAllWritesBack(heap: Memory, recs: seq<StodiumBuffer>, rels: seq<Release>,
                                                r: nat, lo: nat)
    requires r < |rels| && rels[r].ReleaseOut? && rels[r].h < |recs|
    requires !recs[rels[r].h].isDirect && Releasable(recs[rels[r].h], heap)
    requires forall j | 0 <= j < |recs| && !recs[j].isDirect ::
               recs[j].backingArray.Some? && recs[j].content.block.Some? &&
               recs[j].backingArray.value < lo <= recs[j].content.block.value
    requires forall r' | r < r' < |rels| && rels[r'].ReleaseOut? && rels[r'].h < |recs| && !recs[rels[r'].h].isDirect ::
               recs[rels[r'].h].backingArray != recs[rels[r].h].backingArray
    ensures ReleaseAll(heap, recs, rels)[recs[rels[r].h].backingArray.value] ==
            heap[recs[rels[r].h].content.block.value]
    decreases |rels|
  {
    var prefix := rels[..|rels| - 1];
    if r == |rels| - 1 {
      ReleaseAllKeeps(heap, recs, prefix, recs[rels[r].h].content.block.value);
    } else {
      ReleaseAllWritesBack(heap, recs, prefix, r, lo);
    }
  }

  /**
   * Releases never touch a block that no copy-back release targets.
   */
  lemma {:induction false} ReleaseAllKeeps(heap: Memory, recs: seq<StodiumBuffer>, rels: seq<Release>, id: Id)
    requires 0 <= id < |heap|
    requires forall r | 0 <= r < |rels| && rels[r].ReleaseOut? && rels[r].h < |recs| && !recs[rels[r].h].isDirect ::
               recs[rels[r].h].backingArray != Some(id)
    ensures ReleaseAll(heap, recs, rels)[id] == heap[id]
    decreases |rels|
  {
    if rels != [] {
      ReleaseAllKeeps(heap, recs, rels[..|rels| - 1], id);
    }
  }

  /**
   * Releases never read a record's capacity: records that differ only in
   * capacity release alike.
   */
  lemma {:induction false} ReleaseAllIgnoresCapacity(heap: Memory, recs: seq<StodiumBuffer>,
                                                     recs': seq<StodiumBuffer>, rels: seq<Release>)
    requires |recs'| == |recs|
    requires forall j | 0 <= j < |recs| :: recs'[j] == recs[j].(capacity := recs'[j].capacity)
    ensures ReleaseAll(heap, recs', rels) == ReleaseAll(heap, recs, rels)
    decreases |rels|
  {
    if rels != [] {
      ReleaseAllIgnoresCapacity(heap, recs, recs', rels[..|rels| - 1]);
    }
  }

  /**
   * Whatever lengths the primitive stores through AS_OUTPUT_LEN, the
   * memory after the releases is the same: the lengths never reach Java.
   */
  lemma LengthsLost(after: Memory, recs: seq<StodiumBuffer>, slots: seq<Slot>, rels: seq<Release>,
                    lengths: seq<nat>, lengths': seq<nat>)
    requires |lengths| == |lengths'| == |slots|
    ensures ReleaseAll(after, StoreLengths(recs, slots, lengths), rels) ==
            ReleaseAll(after, StoreLengths(recs, slots, lengths'), rels)
  {
    ReleaseAllIgnoresCapacity(after, recs, StoreLengths(recs, slots, lengths), rels);
    ReleaseAllIgnoresCapacity(after, recs, StoreLengths(recs, slots, lengths'), rels);
  }

  /**
   * Pointer `p` is `extra` bytes past the start of `b`'s bytes (arrayOffset()
   * or the base address), in a block that holds, in the memory the primitive
   * starts from, what `b`'s block holds before the binding: `b`'s own block
   * when it is direct, a fresh copy when it is a heap buffer. A NULL handle
   * yields NULL plus `extra`.
   */
  ghost predicate Reaches(p: Ptr, b: ByteBuffer?, extra: int, heap: Memory, before: Memory)
    reads b
  {
    if b == null then p == Ptr(None, extra)
    else
      Usable(b, heap) && p.block.Some? && p.block.value < |before| &&
      (if b.isDirect then p.block.value == b.block else |heap| <= p.block.value) &&
      before[p.block.value] == heap[b.block] && p.index == b.offset + extra
  }

  /**
   * What a reaching pointer shows the primitive: from `p - extra` on, as
   * many bytes as AS_INPUT_LEN reports, and they are the resolver's region.
   */
  lemma ReachesRegion(p: Ptr, b: ByteBuffer, extra: int, heap: Memory, before: Memory)
    requires Reaches(p, b, extra, heap, before)
    ensures var start := p.index - extra;
            0 <= start && start + ResolvedLength(b) <= |before[p.block.value]| &&
            before[p.block.value][start .. start + ResolvedLength(b)] == ResolvedRegion(b.State(heap))
  {
  }

  /** A writable pointer into `b`'s bytes, `extra` bytes in. */
  ghost predicate Writes(a: Arg, b: ByteBuffer?, extra: int, heap: Memory, before: Memory)
    reads b
  {
    a.Out? && Reaches(a.p, b, extra, heap, before)
  }

  /** A read-only pointer into `b`'s bytes, `extra` bytes in. */
  ghost predicate Reads(a: Arg, b: ByteBuffer?, extra: int, heap: Memory, before: Memory)
    reads b
  {
    a.In? && Reaches(a.p, b, extra, heap, before)
  }

  /** Argument `a` is what slot `s` promises in terms of the handles themselves. */
  ghost predicate Passes(a: Arg, s: Slot, hs: seq<ByteBuffer?>, heap: Memory, before: Memory)
    reads hs
  {
    s.Refers(|hs|) &&
    match s
    case Output(h) => Writes(a, hs[h], 0, heap, before)
    case OutputPlus(h, off) => Writes(a, hs[h], off, heap, before)
    case Input(h) => Reads(a, hs[h], 0, heap, before)
    case InputPlus(h, off) => Reads(a, hs[h], off, heap, before)
    case InputLen(h) => a == Len(ResolvedLength(hs[h]))
    case OutputLen(h) => a.LenOut? && a.current == ResolvedLength(hs[h])
    case Size(n) => a == Len(Unsigned64(n))
    case Scalar(n) => a == Val(n)
    case NullArg => a == Null
  }

  /** A record's pointer, moved by `extra`, reaches its handle's bytes; its capacity is the resolved length. */
  lemma RecordReaches(rec: StodiumBuffer, b: ByteBuffer?, extra: int, heap: Memory, before: Memory)
    requires Usable(b, heap) && Resolved(rec, b, heap, before)
    requires |heap| <= |before| && forall id | 0 <= id < |heap| :: before[id] == heap[id]
    ensures Reaches(Add(rec.content, rec.offset + extra), b, extra, heap, before)
    ensures rec.capacity == ResolvedLength(b)
  {
  }

  /** The argument slot `s` derives is what it promises. */
  lemma SlotPasses(hs: seq<ByteBuffer?>, recs: seq<StodiumBuffer>, s: Slot, heap: Memory, before: Memory)
    requires s.Refers(|hs|) && |recs| == |hs|
    requires s.Refers(0) || (Usable(hs[s.h], heap) && Resolved(recs[s.h], hs[s.h], heap, before))
    requires |heap| <= |before| && forall id | 0 <= id < |heap| :: before[id] == heap[id]
    ensures Passes(Derive(s, recs), s, hs, heap, before)
  {
    match s
    case Output(h) => RecordReaches(recs[h], hs[h], 0, heap, before);
    case OutputPlus(h, off) => RecordReaches(recs[h], hs[h], off, heap, before);
    case Input(h) => RecordReaches(recs[h], hs[h], 0, heap, before);
    case InputPlus(h, off) => RecordReaches(recs[h], hs[h], off, heap, before);
    case InputLen(h) => RecordReaches(recs[h], hs[h], 0, heap, before);
    case OutputLen(h) => RecordReaches(recs[h], hs[h], 0, heap, before);
    case Size(n) =>
    case Scalar(n) =>
    case NullArg =>
  }

  /** Every argument the macros derive is what its slot promises. */
  lemma LayoutPasses(hs: seq<ByteBuffer?>, recs: seq<StodiumBuffer>, slots: seq<Slot>,
                     heap: Memory, before: Memory)
    requires forall j | 0 <= j < |hs| :: Usable(hs[j], heap)
    requires |recs| == |hs| && forall j | 0 <= j < |hs| :: Resolved(recs[j], hs[j], heap, before)
    requires |heap| <= |before| && forall id | 0 <= id < |heap| :: before[id] == heap[id]
    requires forall k | 0 <= k < |slots| :: slots[k].Refers(|hs|)
    ensures forall k | 0 <= k < |slots| :: Passes(Layout(slots, recs)[k], slots[k], hs, heap, before)
  {
    forall k | 0 <= k < |slots|
      ensures Passes(Layout(slots, recs)[k], slots[k], hs, heap, before)
    {
      var s := slots[k];
      if !s.Refers(0) {
        assert Usable(hs[s.h], heap) && Resolved(recs[s.h], hs[s.h], heap, before);
      }
      SlotPasses(hs, recs, s, heap, before);
    }
  }

  /** No release writes over block `id`, and the primitive gets no pointer straight into it. */
  ghost predicate Untouched(hs: seq<ByteBuffer?>, slots: seq<Slot>, rels: seq<Release>, id: Id)
  {
    (forall r | 0 <= r < |rels| :: !WritesBack(hs, rels, r, id)) &&
    (forall k | 0 <= k < |slots| :: !WritesInPlace(hs, slots, k, id))
  }

  /** An untouched block keeps its bytes through the whole binding. */
  lemma UntouchedKept(heap: Memory, hs: seq<ByteBuffer?>, slots: seq<Slot>, rels: seq<Release>,
                      recs: seq<StodiumBuffer>, call: Call, heap': Memory, id: Id)
    requires Marshalled(heap, hs, slots, rels, recs, call, heap')
    requires id < |heap| && Untouched(hs, slots, rels, id)
    ensures id < |heap'| && heap'[id] == heap[id]
  {
    ReleasesKeep(hs, recs, rels, heap, call.before, call.after, id);
    OnlyDirectOutputsWritten(hs, recs, slots, heap, call.before, id);
  }

  /**
   * A buffer handed over through a writable slot and released as output
   * ends up holding what the primitive left where that slot points, unless
   * it is a heap buffer whose array a later output release overwrites.
   */
  lemma OutputDelivered(heap: Memory, hs: seq<ByteBuffer?>, slots: seq<Slot>, rels: seq<Release>,
                        recs: seq<StodiumBuffer>, call: Call, heap': Memory, k: nat, r: nat)
    requires Marshalled(heap, hs, slots, rels, recs, call, heap') && Apart(hs)
    requires k < |slots| && slots[k].Writable() && r < |rels| && rels[r] == ReleaseOut(slots[k].h)
    requires hs[slots[k].h] == null || hs[slots[k].h].isDirect ||
             forall r' | r < r' < |rels| :: !WritesBack(hs, rels, r', hs[slots[k].h].block)
    ensures Delivered(hs[slots[k].h], call.args[k], heap', call.after)
  {
    var j := slots[k].h;
    var b := hs[j];
    assert Resolved(recs[j], hs[j], heap, call.before);
    assert call.args[k] == Derive(slots[k], recs);
    if b != null {
      if b.isDirect {
        ReleasesKeep(hs, recs, rels, heap, call.before, call.after, b.block);
      } else {
        CopyBackWins(hs, recs, rels, heap, call.before, call.after, r);
      }
    }
  }

  /** After the binding, `b`'s array or block holds what the primitive left where `a` points. */
  ghost predicate Delivered(b: ByteBuffer?, a: Arg, heap': Memory, after: Memory)
  {
    b != null ==>
      (a.Out? || a.In?) && a.p.block.Some? && b.block < |heap'| && a.p.block.value < |after| &&
      heap'[b.block] == after[a.p.block.value]
  }

  /** Two handles are heap buffers over one array. */
  predicate SameArray(a: ByteBuffer?, b: ByteBuffer?) {
    a != null && b != null && !a.isDirect && !b.isDirect && a.block == b.block
  }

  /** Block `id` is the array or native block behind `b`. */
  predicate Holds(b: ByteBuffer?, id: Id) {
    b != null && b.block == id
  }

  /** Every argument of a marshalled call is what its slot promises. */
  lemma ArgumentsPass(heap: Memory, hs: seq<ByteBuffer?>, slots: seq<Slot>, rels: seq<Release>,
                      recs: seq<StodiumBuffer>, call: Call, heap': Memory)
    requires Marshalled(heap, hs, slots, rels, recs, call, heap')
    ensures |call.args| == |slots|
    ensures forall k | 0 <= k < |slots| :: Passes(call.args[k], slots[k], hs, heap, call.before)
  {
    LayoutPasses(hs, recs, slots, heap, call.before);
  }

  /** A direct buffer whose native block is `id`: the primitive writes it in place. */
  predicate InPlace(b: ByteBuffer?, id: Id) {
    b != null && b.isDirect && b.block == id
  }

  // ---------------------------------------------------------------------
  // crypto_aead_aes256gcm

  /** crypto_aead_aes256gcm_encrypt_detached(dst, mac, NULL, src, |src|, ad, |ad|, NULL, nonce, key) */
  const AES256GCM_ENCRYPT_DETACHED: seq<Slot> :=
    [Output(0), Output(1), NullArg, Input(2), InputLen(2), Input(3), InputLen(3), NullArg, Input(4), Input(5)]

  /** dst and mac go back as outputs, src, ad, nonce and key as inputs. */
  const AES256GCM_ENCRYPT_DETACHED_RELEASES: seq<Release> :=
    [ReleaseOut(0), ReleaseOut(1), ReleaseIn(2), ReleaseIn(3), ReleaseIn(4), ReleaseIn(5)]

  /** encryptDetached(dst, mac, src, ad, nonce, key) */
  method Aes256gcmEncryptDetached(heap: Memory, lib: Library, dst: ByteBuffer?, mac: ByteBuffer?,
                                  src: ByteBuffer?, ad: ByteBuffer?, nonce: ByteBuffer?, key: ByteBuffer?)
    returns (result: int32, heap': Memory, ghost recs: seq<StodiumBuffer>, ghost call: Call)
    requires lib.Loaded()
    requires Usable(dst, heap) && Usable(mac, heap) && Usable(src, heap)
    requires Usable(ad, heap) && Usable(nonce, heap) && Usable(key, heap)
    ensures result == call.status && call.fn == "crypto_aead_aes256gcm_encrypt_detached"
    ensures Marshalled(heap, [dst, mac, src, ad, nonce, key], AES256GCM_ENCRYPT_DETACHED,
                       AES256GCM_ENCRYPT_DETACHED_RELEASES, recs, call, heap')
  {
    ghost var pinned;
    result, heap', recs, call, pinned := Marshal(heap, lib, "crypto_aead_aes256gcm_encrypt_detached",
      [dst, mac, src, ad, nonce, key], AES256GCM_ENCRYPT_DETACHED, AES256GCM_ENCRYPT_DETACHED_RELEASES);
  }

  /** The ciphertext and the tag reach Java, unless dst and mac share an array (then the tag wins). */
  lemma Aes256gcmEncryptDetachedDelivers(heap: Memory, dst: ByteBuffer?, mac: ByteBuffer?, src: ByteBuffer?,
                                         ad: ByteBuffer?, nonce: ByteBuffer?, key: ByteBuffer?,
                                         recs: seq<StodiumBuffer>, call: Call, heap': Memory)
    requires Marshalled(heap, [dst, mac, src, ad, nonce, key], AES256GCM_ENCRYPT_DETACHED,
                        AES256GCM_ENCRYPT_DETACHED_RELEASES, recs, call, heap')
    requires Apart([dst, mac, src, ad, nonce, key])
    ensures !SameArray(dst, mac) ==> Delivered(dst, call.args[0], heap', call.after)
    ensures Delivered(mac, call.args[1], heap', call.after)
  {
    var hs := [dst, mac, src, ad, nonce, key];
    OutputDelivered(heap, hs, AES256GCM_ENCRYPT_DETACHED, AES256GCM_ENCRYPT_DETACHED_RELEASES, recs, call, heap', 1, 1);
    if !SameArray(dst, mac) {
      OutputDelivered(heap, hs, AES256GCM_ENCRYPT_DETACHED, AES256GCM_ENCRYPT_DETACHED_RELEASES, recs, call, heap', 0, 0);
    }
  }

  /** Every array other than dst's and mac's keeps its bytes: src, ad, nonce and key are never written. */
  lemma Aes256gcmEncryptDetachedKeeps(heap: Memory, dst: ByteBuffer?, mac: ByteBuffer?, src: ByteBuffer?,
                                      ad: ByteBuffer?, nonce: ByteBuffer?, key: ByteBuffer?,
                                      recs: seq<StodiumBuffer>, call: Call, heap': Memory)
    requires Marshalled(heap, [dst, mac, src, ad, nonce, key], AES256GCM_ENCRYPT_DETACHED,
                        AES256GCM_ENCRYPT_DETACHED_RELEASES, recs, call, heap')
    ensures forall id | 0 <= id < |heap| && !Holds(dst, id) && !Holds(mac, id) ::
              id < |heap'| && heap'[id] == heap[id]
  {
    forall id | 0 <= id < |heap| && !Holds(dst, id) && !Holds(mac, id)
      ensures id < |heap'| && heap'[id] == heap[id]
    {
      UntouchedKept(heap, [dst, mac, src, ad, nonce, key], AES256GCM_ENCRYPT_DETACHED,
                    AES256GCM_ENCRYPT_DETACHED_RELEASES, recs, call, heap', id);
    }
  }

  /** crypto_aead_aes256gcm_decrypt(dst, &dst.capacity, NULL, src, |src|, ad, |ad|, nonce, key) */
  const AES256GCM_DECRYPT: seq<Slot> :=
    [Output(0), OutputLen(0), NullArg, Input(1), InputLen(1), Input(2), InputLen(2), Input(3), Input(4)]

  /** dst goes back as output, src, ad, nonce and key as inputs. */
  const ONE_OUTPUT_FOUR_INPUTS: seq<Release> :=
    [ReleaseOut(0), ReleaseIn(1), ReleaseIn(2), ReleaseIn(3), ReleaseIn(4)]

  /** decrypt(dst, src, ad, nonce, key) */
  method Aes256gcmDecrypt(heap: Memory, lib: Library, dst: ByteBuffer?, src: ByteBuffer?,
                          ad: ByteBuffer?, nonce: ByteBuffer?, key: ByteBuffer?)
    returns (result: int32, heap': Memory, ghost recs: seq<StodiumBuffer>, ghost call: Call)
    requires lib.Loaded()
    requires Usable(dst, heap) && Usable(src, heap) && Usable(ad, heap)
    requires Usable(nonce, heap) && Usable(key, heap)
    ensures result == call.status && call.fn == "crypto_aead_aes256gcm_decrypt"
    ensures Marshalled(heap, [dst, src, ad, nonce, key], AES256GCM_DECRYPT, ONE_OUTPUT_FOUR_INPUTS,
                       recs, call, heap')
  {
    ghost var pinned;
    result, heap', recs, call, pinned := Marshal(heap, lib, "crypto_aead_aes256gcm_decrypt",
      [dst, src, ad, nonce, key], AES256GCM_DECRYPT, ONE_OUTPUT_FOUR_INPUTS);
  }

  /**
   * The plaintext reaches Java and nothing else changes. The plaintext
   * length the primitive reports goes into the record and no further
   * (`LengthsLost`): Java learns it only from the status.
   */
  lemma Aes256gcmDecryptOutcome(heap: Memory, dst: ByteBuffer?, src: ByteBuffer?, ad: ByteBuffer?,
                                nonce: ByteBuffer?, key: ByteBuffer?,
                                recs: seq<StodiumBuffer>, call: Call, heap': Memory)
    requires Marshalled(heap, [dst, src, ad, nonce, key], AES256GCM_DECRYPT, ONE_OUTPUT_FOUR_INPUTS,
                        recs, call, heap')
    requires Apart([dst, src, ad, nonce, key])
    ensures Delivered(dst, call.args[0], heap', call.after)
    ensures call.args[1] == LenOut(ResolvedLength(dst))
    ensures forall id | 0 <= id < |heap| && !Holds(dst, id) :: id < |heap'| && heap'[id] == heap[id]
  {
    var hs := [dst, src, ad, nonce, key];
    OutputDelivered(heap, hs, AES256GCM_DECRYPT, ONE_OUTPUT_FOUR_INPUTS, recs, call, heap', 0, 0);
    assert Resolved(recs[0], hs[0], heap, call.before);
    forall id | 0 <= id < |heap| && !Holds(dst, id)
      ensures id < |heap'| && heap'[id] == heap[id]
    {
      UntouchedKept(heap, hs, AES256GCM_DECRYPT, ONE_OUTPUT_FOUR_INPUTS, recs, call, heap', id);
    }
  }

  // ---------------------------------------------------------------------
  // crypto_aead_chacha20poly1305_ietf

  /**
   * crypto_aead_chacha20poly1305_ietf_encrypt(dst + dst_offset, &dst.capacity,
   * src + src_offset, (unsigned long long) src_limit, ad, |ad|, NULL, nonce, key)
   */
  function ChaCha20Poly1305IetfEncryptSlots(dstOffset: int32, srcOffset: int32, srcLimit: int32): seq<Slot> {
    [OutputPlus(0, dstOffset), OutputLen(0), InputPlus(1, srcOffset), Size(srcLimit),
     Input(2), InputLen(2), NullArg, Input(3), Input(4)]
  }

  /** encrypt(dst, dst_offset, src, src_offset, src_limit, ad, nonce, key) */
  method ChaCha20Poly1305IetfEncrypt(heap: Memory, lib: Library, dst: ByteBuffer?, dstOffset: int32,
                                     src: ByteBuffer?, srcOffset: int32, srcLimit: int32,
                                     ad: ByteBuffer?, nonce: ByteBuffer?, key: ByteBuffer?)
    returns (result: int32, heap': Memory, ghost recs: seq<StodiumBuffer>, ghost call: Call)
    requires lib.Loaded()
    requires Usable(dst, heap) && Usable(src, heap) && Usable(ad, heap)
    requires Usable(nonce, heap) && Usable(key, heap)
    ensures result == call.status && call.fn == "crypto_aead_chacha20poly1305_ietf_encrypt"
    ensures Marshalled(heap, [dst, src, ad, nonce, key],
                       ChaCha20Poly1305IetfEncryptSlots(dstOffset, srcOffset, srcLimit),
                       ONE_OUTPUT_FOUR_INPUTS, recs, call, heap')
  {
    ghost var pinned;
    result, heap', recs, call, pinned := Marshal(heap, lib, "crypto_aead_chacha20poly1305_ietf_encrypt",
      [dst, src, ad, nonce, key], ChaCha20Poly1305IetfEncryptSlots(dstOffset, srcOffset, srcLimit),
      ONE_OUTPUT_FOUR_INPUTS);
  }

  /**
   * The offsets move the pointers with no check against the buffers, and
   * the message length is the caller's src_limit, not src's remaining():
   * a negative one reaches the primitive as a length of at least 2^63.
   */
  lemma ChaCha20Poly1305IetfEncryptArguments(heap: Memory, dst: ByteBuffer?, dstOffset: int32,
                                             src: ByteBuffer?, srcOffset: int32, srcLimit: int32,
                                             ad: ByteBuffer?, nonce: ByteBuffer?, key: ByteBuffer?,
                                             recs: seq<StodiumBuffer>, call: Call, heap': Memory)
    requires Marshalled(heap, [dst, src, ad, nonce, key],
                        ChaCha20Poly1305IetfEncryptSlots(dstOffset, srcOffset, srcLimit),
                        ONE_OUTPUT_FOUR_INPUTS, recs, call, heap')
    ensures |call.args| == 9
    ensures Writes(call.args[0], dst, dstOffset, heap, call.before)
    ensures Reads(call.args[2], src, srcOffset, heap, call.before)
    ensures call.args[3] == Len(Unsigned64(srcLimit))
    ensures srcLimit < 0 ==> call.args[3].n >= 0x8000_0000_0000_0000
  {
    var hs := [dst, src, ad, nonce, key];
    var slots := ChaCha20Poly1305IetfEncryptSlots(dstOffset, srcOffset, srcLimit);
    LayoutPasses(hs, recs, slots, heap, call.before);
    assert Passes(call.args[0], slots[0], hs, heap, call.before);
    assert Passes(call.args[2], slots[2], hs, heap, call.before);
    assert Passes(call.args[3], slots[3], hs, heap, call.before);
  }

  /** The ciphertext reaches Java and nothing else changes. */
  lemma ChaCha20Poly1305IetfEncryptOutcome(heap: Memory, dst: ByteBuffer?, dstOffset: int32,
                                           src: ByteBuffer?, srcOffset: int32, srcLimit: int32,
                                           ad: ByteBuffer?, nonce: ByteBuffer?, key: ByteBuffer?,
                                           recs: seq<StodiumBuffer>, call: Call, heap': Memory)
    requires Marshalled(heap, [dst, src, ad, nonce, key],
                        ChaCha20Poly1305IetfEncryptSlots(dstOffset, srcOffset, srcLimit),
                        ONE_OUTPUT_FOUR_INPUTS, recs, call, heap')
    requires Apart([dst, src, ad, nonce, key])
    ensures Delivered(dst, call.args[0], heap', call.after)
    ensures forall id | 0 <= id < |heap| && !Holds(dst, id) :: id < |heap'| && heap'[id] == heap[id]
  {
    var hs := [dst, src, ad, nonce, key];
    var slots := ChaCha20Poly1305IetfEncryptSlots(dstOffset, srcOffset, srcLimit);
    OutputDelivered(heap, hs, slots, ONE_OUTPUT_FOUR_INPUTS, recs, call, heap', 0, 0);
    forall id | 0 <= id < |heap| && !Holds(dst, id)
      ensures id < |heap'| && heap'[id] == heap[id]
    {
      UntouchedKept(heap, hs, slots, ONE_OUTPUT_FOUR_INPUTS, recs, call, heap', id);
    }
  }

  /**
   * crypto_aead_chacha20poly1305_ietf_decrypt_detached(dst, NULL, src, |src|,
   * mac, ad, |ad|, nonce, key): the tag is handed over through AS_OUTPUT.
   */
  const CHACHA20POLY1305_IETF_DECRYPT_DETACHED: seq<Slot> :=
    [Output(0), NullArg, Input(1), InputLen(1), Output(2), Input(3), InputLen(3), Input(4), Input(5)]

  /** dst goes back as output; mac, then src, ad, nonce and key as inputs. */
  const CHACHA20POLY1305_IETF_DECRYPT_DETACHED_RELEASES: seq<Release> :=
    [ReleaseOut(0), ReleaseIn(2), ReleaseIn(1), ReleaseIn(3), ReleaseIn(4), ReleaseIn(5)]

  /** decryptDetached(dst, src, mac, ad, nonce, key) */
  method ChaCha20Poly1305IetfDecryptDetached(heap: Memory, lib: Library, dst: ByteBuffer?, src: ByteBuffer?,
                                             mac: ByteBuffer?, ad: ByteBuffer?, nonce: ByteBuffer?,
                                             key: ByteBuffer?)
    returns (result: int32, heap': Memory, ghost recs: seq<StodiumBuffer>, ghost call: Call)
    requires lib.Loaded()
    requires Usable(dst, heap) && Usable(src, heap) && Usable(mac, heap)
    requires Usable(ad, heap) && Usable(nonce, heap) && Usable(key, heap)
    ensures result == call.status && call.fn == "crypto_aead_chacha20poly1305_ietf_decrypt_detached"
    ensures Marshalled(heap, [dst, src, mac, ad, nonce, key], CHACHA20POLY1305_IETF_DECRYPT_DETACHED,
                       CHACHA20POLY1305_IETF_DECRYPT_DETACHED_RELEASES, recs, call, heap')
  {
    ghost var pinned;
    result, heap', recs, call, pinned := Marshal(heap, lib, "crypto_aead_chacha20poly1305_ietf_decrypt_detached",
      [dst, src, mac, ad, nonce, key], CHACHA20POLY1305_IETF_DECRYPT_DETACHED,
      CHACHA20POLY1305_IETF_DECRYPT_DETACHED_RELEASES);
  }

  /**
   * The plaintext reaches Java. The tag gets a writable pointer but is
   * released as input: a heap mac's array never changes, and only a direct
   * mac could be written, in place.
   */
  lemma ChaCha20Poly1305IetfDecryptDetachedOutcome(heap: Memory, dst: ByteBuffer?, src: ByteBuffer?,
                                                   mac: ByteBuffer?, ad: ByteBuffer?, nonce: ByteBuffer?,
                                                   key: ByteBuffer?,
                                                   recs: seq<StodiumBuffer>, call: Call, heap': Memory)
    requires Marshalled(heap, [dst, src, mac, ad, nonce, key], CHACHA20POLY1305_IETF_DECRYPT_DETACHED,
                        CHACHA20POLY1305_IETF_DECRYPT_DETACHED_RELEASES, recs, call, heap')
    requires Apart([dst, src, mac, ad, nonce, key])
    ensures Delivered(dst, call.args[0], heap', call.after)
    ensures forall id | 0 <= id < |heap| && !Holds(dst, id) && !InPlace(mac, id) ::
              id < |heap'| && heap'[id] == heap[id]
  {
    var hs := [dst, src, mac, ad, nonce, key];
    OutputDelivered(heap, hs, CHACHA20POLY1305_IETF_DECRYPT_DETACHED,
                    CHACHA20POLY1305_IETF_DECRYPT_DETACHED_RELEASES, recs, call, heap', 0, 0);
    forall id | 0 <= id < |heap| && !Holds(dst, id) && !InPlace(mac, id)
      ensures id < |heap'| && heap'[id] == heap[id]
    {
      UntouchedKept(heap, hs, CHACHA20POLY1305_IETF_DECRYPT_DETACHED,
                    CHACHA20POLY1305_IETF_DECRYPT_DETACHED_RELEASES, recs, call, heap', id);
    }
  }

  /**
   * crypto_aead_chacha20poly1305_ietf_decrypt(dst + dst_offset, &dst.capacity, NULL,
   * src + src_offset, (unsigned long long) src_length, ad, |ad|, nonce, key)
   */
  function ChaCha20Poly1305IetfDecryptSlots(dstOffset: int32, srcOffset: int32, srcLength: int32): seq<Slot> {
    [OutputPlus(0, dstOffset), OutputLen(0), NullArg, InputPlus(1, srcOffset), Size(srcLength),
     Input(2), InputLen(2), Input(3), Input(4)]
  }

  /** decrypt(dst, dst_offset, src, src_offset, src_length, ad, nonce, key) */
  method ChaCha20Poly1305IetfDecrypt(heap: Memory, lib: Library, dst: ByteBuffer?, dstOffset: int32,
                                     src: ByteBuffer?, srcOffset: int32, srcLength: int32,
                                     ad: ByteBuffer?, nonce: ByteBuffer?, key: ByteBuffer?)
    returns (result: int32, heap': Memory, ghost recs: seq<StodiumBuffer>, ghost call: Call)
    requires lib.Loaded()
    requires Usable(dst, heap) && Usable(src, heap) && Usable(ad, heap)
    requires Usable(nonce, heap) && Usable(key, heap)
    ensures result == call.status && call.fn == "crypto_aead_chacha20poly1305_ietf_decrypt"
    ensures Marshalled(heap, [dst, src, ad, nonce, key],
                       ChaCha20Poly1305IetfDecryptSlots(dstOffset, srcOffset, srcLength),
                       ONE_OUTPUT_FOUR_INPUTS, recs, call, heap')
  {
    ghost var pinned;
    result, heap', recs, call, pinned := Marshal(heap, lib, "crypto_aead_chacha20poly1305_ietf_decrypt",
      [dst, src, ad, nonce, key], ChaCha20Poly1305IetfDecryptSlots(dstOffset, srcOffset, srcLength),
      ONE_OUTPUT_FOUR_INPUTS);
  }

  /** The plaintext reaches Java and nothing else changes. */
  lemma ChaCha20Poly1305IetfDecryptOutcome(heap: Memory, dst: ByteBuffer?, dstOffset: int32,
                                           src: ByteBuffer?, srcOffset: int32, srcLength: int32,
                                           ad: ByteBuffer?, nonce: ByteBuffer?, key: ByteBuffer?,
                                           recs: seq<StodiumBuffer>, call: Call, heap': Memory)
    requires Marshalled(heap, [dst, src, ad, nonce, key],
                        ChaCha20Poly1305IetfDecryptSlots(dstOffset, srcOffset, srcLength),
                        ONE_OUTPUT_FOUR_INPUTS, recs, call, heap')
    requires Apart([dst, src, ad, nonce, key])
    ensures Delivered(dst, call.args[0], heap', call.after)
    ensures forall id | 0 <= id < |heap| && !Holds(dst, id) :: id < |heap'| && heap'[id] == heap[id]
  {
    var hs := [dst, src, ad, nonce, key];
    var slots := ChaCha20Poly1305IetfDecryptSlots(dstOffset, srcOffset, srcLength);
    OutputDelivered(heap, hs, slots, ONE_OUTPUT_FOUR_INPUTS, recs, call, heap', 0, 0);
    forall id | 0 <= id < |heap| && !Holds(dst, id)
      ensures id < |heap'| && heap'[id] == heap[id]
    {
      UntouchedKept(heap, hs, slots, ONE_OUTPUT_FOUR_INPUTS, recs, call, heap', id);
    }
  }

  // ---------------------------------------------------------------------
  // crypto_auth_hmacsha256

  /** crypto_auth_hmacsha256_verify(mac, src, |src|, key): the tag through AS_OUTPUT. */
  const HMACSHA256_VERIFY: seq<Slot> := [Output(0), Input(1), InputLen(1), Input(2)]

  /** Everything goes back as input. */
  const THREE_INPUTS: seq<Release> := [ReleaseIn(0), ReleaseIn(1), ReleaseIn(2)]

  /** verify(mac, src, key) */
  method HmacSha256Verify(heap: Memory, lib: Library, mac: ByteBuffer?, src: ByteBuffer?, key: ByteBuffer?)
    returns (result: int32, heap': Memory, ghost recs: seq<StodiumBuffer>, ghost call: Call)
    requires lib.Loaded()
    requires Usable(mac, heap) && Usable(src, heap) && Usable(key, heap)
    ensures result == call.status && call.fn == "crypto_auth_hmacsha256_verify"
    ensures Marshalled(heap, [mac, src, key], HMACSHA256_VERIFY, THREE_INPUTS, recs, call, heap')
  {
    ghost var pinned;
    result, heap', recs, call, pinned := Marshal(heap, lib, "crypto_auth_hmacsha256_verify",
      [mac, src, key], HMACSHA256_VERIFY, THREE_INPUTS);
  }

  /** Verification changes no Java array; only a direct mac's block could be written, in place. */
  lemma HmacSha256VerifyKeeps(heap: Memory, mac: ByteBuffer?, src: ByteBuffer?, key: ByteBuffer?,
                              recs: seq<StodiumBuffer>, call: Call, heap': Memory)
    requires Marshalled(heap, [mac, src, key], HMACSHA256_VERIFY, THREE_INPUTS, recs, call, heap')
    ensures forall id | 0 <= id < |heap| && !InPlace(mac, id) :: id < |heap'| && heap'[id] == heap[id]
  {
    forall id | 0 <= id < |heap| && !InPlace(mac, id)
      ensures id < |heap'| && heap'[id] == heap[id]
    {
      UntouchedKept(heap, [mac, src, key], HMACSHA256_VERIFY, THREE_INPUTS, recs, call, heap', id);
    }
  }

  /**
   * A state updated from one input: hmacsha256 init(dst, key) and
   * update(dst, src), blake2b update(state, src) all pass
   * (state, input, |input|).
   */
  const STATE_INPUT: seq<Slot> := [Output(0), Input(1), InputLen(1)]

  /** The state goes back as output, the input as input. */
  const STATE_INPUT_RELEASES: seq<Release> := [ReleaseOut(0), ReleaseIn(1)]

  /** The new state reaches Java and the input's array keeps its bytes. */
  lemma StateInputOutcome(heap: Memory, state: ByteBuffer?, input: ByteBuffer?,
                          recs: seq<StodiumBuffer>, call: Call, heap': Memory)
    requires Marshalled(heap, [state, input], STATE_INPUT, STATE_INPUT_RELEASES, recs, call, heap')
    requires Apart([state, input])
    ensures Delivered(state, call.args[0], heap', call.after)
    ensures forall id | 0 <= id < |heap| && !Holds(state, id) :: id < |heap'| && heap'[id] == heap[id]
  {
    OutputDelivered(heap, [state, input], STATE_INPUT, STATE_INPUT_RELEASES, recs, call, heap', 0, 0);
    forall id | 0 <= id < |heap| && !Holds(state, id)
      ensures id < |heap'| && heap'[id] == heap[id]
    {
      UntouchedKept(heap, [state, input], STATE_INPUT, STATE_INPUT_RELEASES, recs, call, heap', id);
    }
  }

  /** init(dst, key) */
  method HmacSha256Init(heap: Memory, lib: Library, dst: ByteBuffer?, key: ByteBuffer?)
    returns (result: int32, heap': Memory, ghost recs: seq<StodiumBuffer>, ghost call: Call)
    requires lib.Loaded() && Usable(dst, heap) && Usable(key, heap)
    ensures result == call.status && call.fn == "crypto_auth_hmacsha256_init"
    ensures Marshalled(heap, [dst, key], STATE_INPUT, STATE_INPUT_RELEASES, recs, call, heap')
  {
    ghost var pinned;
    result, heap', recs, call, pinned := Marshal(heap, lib, "crypto_auth_hmacsha256_init",
      [dst, key], STATE_INPUT, STATE_INPUT_RELEASES);
  }

  /** update(dst, src) */
  method HmacSha256Update(heap: Memory, lib: Library, dst: ByteBuffer?, src: ByteBuffer?)
    returns (result: int32, heap': Memory, ghost recs: seq<StodiumBuffer>, ghost call: Call)
    requires lib.Loaded() && Usable(dst, heap) && Usable(src, heap)
    ensures result == call.status && call.fn == "crypto_auth_hmacsha256_update"
    ensures Marshalled(heap, [dst, src], STATE_INPUT, STATE_INPUT_RELEASES, recs, call, heap')
  {
    ghost var pinned;
    result, heap', recs, call, pinned := Marshal(heap, lib, "crypto_auth_hmacsha256_update",
      [dst, src], STATE_INPUT, STATE_INPUT_RELEASES);
  }

  /** crypto_auth_hmacsha256_final(state, dst) */
  const TWO_OUTPUTS: seq<Slot> := [Output(0), Output(1)]

  /** Both go back as outputs, in resolution order. */
  const TWO_OUTPUT_RELEASES: seq<Release> := [ReleaseOut(0), ReleaseOut(1)]

  /** final(state, dst) */
  method HmacSha256Final(heap: Memory, lib: Library, state: ByteBuffer?, dst: ByteBuffer?)
    returns (result: int32, heap': Memory, ghost recs: seq<StodiumBuffer>, ghost call: Call)
    requires lib.Loaded() && Usable(state, heap) && Usable(dst, heap)
    ensures result == call.status && call.fn == "crypto_auth_hmacsha256_final"
    ensures Marshalled(heap, [state, dst], TWO_OUTPUTS, TWO_OUTPUT_RELEASES, recs, call, heap')
  {
    ghost var pinned;
    result, heap', recs, call, pinned := Marshal(heap, lib, "crypto_auth_hmacsha256_final",
      [state, dst], TWO_OUTPUTS, TWO_OUTPUT_RELEASES);
  }

  /**
   * The tag always reaches Java; the final state does too unless state and
   * dst share an array, where the tag, released last, wins.
   */
  lemma HmacSha256FinalOutcome(heap: Memory, state: ByteBuffer?, dst: ByteBuffer?,
                               recs: seq<StodiumBuffer>, call: Call, heap': Memory)
    requires Marshalled(heap, [state, dst], TWO_OUTPUTS, TWO_OUTPUT_RELEASES, recs, call, heap')
    requires Apart([state, dst])
    ensures Delivered(dst, call.args[1], heap', call.after)
    ensures !SameArray(state, dst) ==> Delivered(state, call.args[0], heap', call.after)
    ensures forall id | 0 <= id < |heap| && !Holds(state, id) && !Holds(dst, id) ::
              id < |heap'| && heap'[id] == heap[id]
  {
    OutputDelivered(heap, [state, dst], TWO_OUTPUTS, TWO_OUTPUT_RELEASES, recs, call, heap', 1, 1);
    if !SameArray(state, dst) {
      OutputDelivered(heap, [state, dst], TWO_OUTPUTS, TWO_OUTPUT_RELEASES, recs, call, heap', 0, 0);
    }
    forall id | 0 <= id < |heap| && !Holds(state, id) && !Holds(dst, id)
      ensures id < |heap'| && heap'[id] == heap[id]
    {
      UntouchedKept(heap, [state, dst], TWO_OUTPUTS, TWO_OUTPUT_RELEASES, recs, call, heap', id);
    }
  }

  // ---------------------------------------------------------------------
  // sodium_base642bin

  /**
   * sodium_base642bin(dst, |dst|, src, |src|, NULL, &dst.capacity, NULL, variant):
   * dst's record is both read for the maximum length and written with the
   * decoded length.
   */
  function Base642BinSlots(variant: int32): seq<Slot> {
    [Output(0), InputLen(0), Input(1), InputLen(1), NullArg, OutputLen(0), NullArg, Scalar(variant)]
  }

  /** base642bin(dst, src, variant) */
  method Base642Bin(heap: Memory, lib: Library, dst: ByteBuffer?, src: ByteBuffer?, variant: int32)
    returns (result: int32, heap': Memory, ghost recs: seq<StodiumBuffer>, ghost call: Call)
    requires lib.Loaded() && Usable(dst, heap) && Usable(src, heap)
    ensures result == call.status && call.fn == "sodium_base642bin"
    ensures Marshalled(heap, [dst, src], Base642BinSlots(variant), STATE_INPUT_RELEASES, recs, call, heap')
  {
    ghost var pinned;
    result, heap', recs, call, pinned := Marshal(heap, lib, "sodium_base642bin",
      [dst, src], Base642BinSlots(variant), STATE_INPUT_RELEASES);
  }

  /**
   * The decoded bytes reach Java and the encoded text keeps its bytes. The
   * maximum length handed over and the starting value of the decoded-length
   * field are both dst's resolved length; the decoded length itself is lost.
   */
  lemma Base642BinOutcome(heap: Memory, dst: ByteBuffer?, src: ByteBuffer?, variant: int32,
                          recs: seq<StodiumBuffer>, call: Call, heap': Memory)
    requires Marshalled(heap, [dst, src], Base642BinSlots(variant), STATE_INPUT_RELEASES, recs, call, heap')
    requires Apart([dst, src])
    ensures Delivered(dst, call.args[0], heap', call.after)
    ensures call.args[1] == Len(ResolvedLength(dst)) && call.args[5] == LenOut(ResolvedLength(dst))
    ensures call.args[7] == Val(variant)
    ensures forall id | 0 <= id < |heap| && !Holds(dst, id) :: id < |heap'| && heap'[id] == heap[id]
  {
    var hs := [dst, src];
    OutputDelivered(heap, hs, Base642BinSlots(variant), STATE_INPUT_RELEASES, recs, call, heap', 0, 0);
    assert Resolved(recs[0], hs[0], heap, call.before);
    forall id | 0 <= id < |heap| && !Holds(dst, id)
      ensures id < |heap'| && heap'[id] == heap[id]
    {
      UntouchedKept(heap, hs, Base642BinSlots(variant), STATE_INPUT_RELEASES, recs, call, heap', id);
    }
  }

  // ---------------------------------------------------------------------
  // crypto_generichash_blake2b

  /** crypto_generichash_blake2b_init(state, key, |key|, (size_t) outlen) */
  function Blake2bInitSlots(outlen: int32): seq<Slot> {
    [Output(0), Input(1), InputLen(1), Size(outlen)]
  }

  /** init(state, key, outlen) */
  method Blake2bInit(heap: Memory, lib: Library, state: ByteBuffer?, key: ByteBuffer?, outlen: int32)
    returns (result: int32, heap': Memory, ghost recs: seq<StodiumBuffer>, ghost call: Call)
    requires lib.Loaded() && Usable(state, heap) && Usable(key, heap)
    ensures result == call.status && call.fn == "crypto_generichash_blake2b_init"
    ensures Marshalled(heap, [state, key], Blake2bInitSlots(outlen), STATE_INPUT_RELEASES, recs, call, heap')
  {
    ghost var pinned;
    result, heap', recs, call, pinned := Marshal(heap, lib, "crypto_generichash_blake2b_init",
      [state, key], Blake2bInitSlots(outlen), STATE_INPUT_RELEASES);
  }

  /**
   * The new state reaches Java and the key keeps its bytes; a negative
   * outlen reaches the primitive as a size of at least 2^63.
   */
  lemma Blake2bInitOutcome(heap: Memory, state: ByteBuffer?, key: ByteBuffer?, outlen: int32,
                           recs: seq<StodiumBuffer>, call: Call, heap': Memory)
    requires Marshalled(heap, [state, key], Blake2bInitSlots(outlen), STATE_INPUT_RELEASES, recs, call, heap')
    requires Apart([state, key])
    ensures Delivered(state, call.args[0], heap', call.after)
    ensures call.args[3] == Len(Unsigned64(outlen))
    ensures outlen < 0 ==> call.args[3].n >= 0x8000_0000_0000_0000
    ensures forall id | 0 <= id < |heap| && !Holds(state, id) :: id < |heap'| && heap'[id] == heap[id]
  {
    OutputDelivered(heap, [state, key], Blake2bInitSlots(outlen), STATE_INPUT_RELEASES, recs, call, heap', 0, 0);
    forall id | 0 <= id < |heap| && !Holds(state, id)
      ensures id < |heap'| && heap'[id] == heap[id]
    {
      UntouchedKept(heap, [state, key], Blake2bInitSlots(outlen), STATE_INPUT_RELEASES, recs, call, heap', id);
    }
  }

  /** update(state, src) */
  method Blake2bUpdate(heap: Memory, lib: Library, state: ByteBuffer?, src: ByteBuffer?)
    returns (result: int32, heap': Memory, ghost recs: seq<StodiumBuffer>, ghost call: Call)
    requires lib.Loaded() && Usable(state, heap) && Usable(src, heap)
    ensures result == call.status && call.fn == "crypto_generichash_blake2b_update"
    ensures Marshalled(heap, [state, src], STATE_INPUT, STATE_INPUT_RELEASES, recs, call, heap')
  {
    ghost var pinned;
    result, heap', recs, call, pinned := Marshal(heap, lib, "crypto_generichash_blake2b_update",
      [state, src], STATE_INPUT, STATE_INPUT_RELEASES);
  }

  /**
   * crypto_generichash_blake2b_final(state, dst, |dst|), with dst resolved
   * first: handle 0 is dst, handle 1 the state.
   */
  const BLAKE2B_FINAL: seq<Slot> := [Output(1), Output(0), InputLen(0)]

  /** final(state, dst) */
  method Blake2bFinal(heap: Memory, lib: Library, state: ByteBuffer?, dst: ByteBuffer?)
    returns (result: int32, heap': Memory, ghost recs: seq<StodiumBuffer>, ghost call: Call)
    requires lib.Loaded() && Usable(state, heap) && Usable(dst, heap)
    ensures result == call.status && call.fn == "crypto_generichash_blake2b_final"
    ensures Marshalled(heap, [dst, state], BLAKE2B_FINAL, TWO_OUTPUT_RELEASES, recs, call, heap')
  {
    ghost var pinned;
    result, heap', recs, call, pinned := Marshal(heap, lib, "crypto_generichash_blake2b_final",
      [dst, state], BLAKE2B_FINAL, TWO_OUTPUT_RELEASES);
  }

  /**
   * The final state always reaches Java; the hash does too unless state and
   * dst share an array, where the state, released last, wins.
   */
  lemma Blake2bFinalOutcome(heap: Memory, state: ByteBuffer?, dst: ByteBuffer?,
                            recs: seq<StodiumBuffer>, call: Call, heap': Memory)
    requires Marshalled(heap, [dst, state], BLAKE2B_FINAL, TWO_OUTPUT_RELEASES, recs, call, heap')
    requires Apart([dst, state])
    ensures Delivered(state, call.args[0], heap', call.after)
    ensures !SameArray(state, dst) ==> Delivered(dst, call.args[1], heap', call.after)
    ensures call.args[2] == Len(ResolvedLength(dst))
    ensures forall id | 0 <= id < |heap| && !Holds(state, id) && !Holds(dst, id) ::
              id < |heap'| && heap'[id] == heap[id]
  {
    var hs := [dst, state];
    OutputDelivered(heap, hs, BLAKE2B_FINAL, TWO_OUTPUT_RELEASES, recs, call, heap', 0, 1);
    if !SameArray(state, dst) {
      OutputDelivered(heap, hs, BLAKE2B_FINAL, TWO_OUTPUT_RELEASES, recs, call, heap', 1, 0);
    }
    assert Resolved(recs[0], hs[0], heap, call.before);
    forall id | 0 <= id < |heap| && !Holds(state, id) && !Holds(dst, id)
      ensures id < |heap'| && heap'[id] == heap[id]
    {
      UntouchedKept(heap, hs, BLAKE2B_FINAL, TWO_OUTPUT_RELEASES, recs, call, heap', id);
    }
  }

  // ---------------------------------------------------------------------
  // crypto_sign_ed25519ph

  /** crypto_sign_ed25519ph_final_verify(state, src, key): the signature through AS_OUTPUT. */
  const ED25519PH_FINAL_VERIFY: seq<Slot> := [Output(0), Output(1), Input(2)]

  /** The state goes back as output, the signature and the key as inputs. */
  const ED25519PH_FINAL_VERIFY_RELEASES: seq<Release> := [ReleaseOut(0), ReleaseIn(1), ReleaseIn(2)]

  /** finalVerify(state, src, key) */
  method Ed25519phFinalVerify(heap: Memory, lib: Library, state: ByteBuffer?, src: ByteBuffer?, key: ByteBuffer?)
    returns (result: int32, heap': Memory, ghost recs: seq<StodiumBuffer>, ghost call: Call)
    requires lib.Loaded() && Usable(state, heap) && Usable(src, heap) && Usable(key, heap)
    ensures result == call.status && call.fn == "crypto_sign_ed25519ph_final_verify"
    ensures Marshalled(heap, [state, src, key], ED25519PH_FINAL_VERIFY, ED25519PH_FINAL_VERIFY_RELEASES,
                       recs, call, heap')
  {
    ghost var pinned;
    result, heap', recs, call, pinned := Marshal(heap, lib, "crypto_sign_ed25519ph_final_verify",
      [state, src, key], ED25519PH_FINAL_VERIFY, ED25519PH_FINAL_VERIFY_RELEASES);
  }

  /**
   * The state reaches Java. The signature gets a writable pointer but is
   * released as input, so a heap signature's array never changes; only a
   * direct one could be written, in place.
   */
  lemma Ed25519phFinalVerifyOutcome(heap: Memory, state: ByteBuffer?, src: ByteBuffer?, key: ByteBuffer?,
                                    recs: seq<StodiumBuffer>, call: Call, heap': Memory)
    requires Marshalled(heap, [state, src, key], ED25519PH_FINAL_VERIFY, ED25519PH_FINAL_VERIFY_RELEASES,
                        recs, call, heap')
    requires Apart([state, src, key])
    ensures Delivered(state, call.args[0], heap', call.after)
    ensures forall id | 0 <= id < |heap| && !Holds(state, id) && !InPlace(src, id) ::
              id < |heap'| && heap'[id] == heap[id]
  {
    var hs := [state, src, key];
    OutputDelivered(heap, hs, ED25519PH_FINAL_VERIFY, ED25519PH_FINAL_VERIFY_RELEASES, recs, call, heap', 0, 0);
    forall id | 0 <= id < |heap| && !Holds(state, id) && !InPlace(src, id)
      ensures id < |heap'| && heap'[id] == heap[id]
    {
      UntouchedKept(heap, hs, ED25519PH_FINAL_VERIFY, ED25519PH_FINAL_VERIFY_RELEASES, recs, call, heap', id);
    }
  }
}
