/** The growable staging buffer: a FIFO region of fixed reserved capacity whose
    backing memory is committed one block at a time as the write offset
    advances (src/buffer.c:78-139; buffer.c:9-68 is an older copy with the
    commit done inline, with the same behaviour).

    Offsets are in bytes, as in the source. The reserved address range is an
    array with one slot per element of `unit` bytes (4 for the way buffer's
    ints, 28 for the node buffer's records); every push and pop of the source
    moves whole elements. */
module GrowableBuffers {

  /** COMMIT_BLOCK_SIZE: bytes committed per commit step. */
  const COMMIT_BLOCK_SIZE: int := 16 * 1024

  /** Why the converter stops: the two ways of jumping to `out_of_memory`, and
      a failed `assert`, which traps in a build without RELEASE_BUILD. */
  datatype Fatal = CapacityExceeded | CommitFailure | AssertionFailed

  /** Result of an operation that may end in the fatal `longjmp`: `Halt` stops
      the converter and no further buffer operation is performed. */
  datatype Outcome<+T> = Ok(value: T) | Halt(reason: Fatal)

  /** Multiplying by a whole factor and dividing again gives the factor back. */
  lemma MulDivCancel(k: int, u: int)
    requires 0 < u
    ensures (u * k) / u == k && (u * k) % u == 0
  {
    var d, m := (u * k) / u, (u * k) % u;
    assert u * k == u * d + m;
    assert 0 <= m < u;
    assert u * (k - d) == m;
    if k - d >= 1 {
      assert false;
    } else if k - d <= -1 {
      assert false;
    }
  }

  /** `count` whole elements of `u` bytes after slot `slot` fit in `size`
      bytes exactly when they fit in the `size / u` slots. */
  lemma SlotsFit(slot: int, count: int, u: int, size: int)
    requires 0 < u && 0 <= slot && 0 <= count
    requires u * slot + u * count <= size
    ensures u * slot + u * count == u * (slot + count)
    ensures slot + count <= size / u
  {
    MulDivCancel(slot + count, u);
    DivLe(u * (slot + count), size, u);
  }

  lemma MulAtLeast(u: int, k: int)
    requires 0 < u && 1 <= k
    ensures u * k >= u
  {
    assert u * k == u + u * (k - 1);
    if u * (k - 1) < 0 {
      assert false;
    }
  }

  /** Division by a positive number is monotonic. */
  lemma DivLe(a: int, b: int, u: int)
    requires a <= b && 0 < u
    ensures a / u <= b / u
  {
    var p, q := a / u, b / u;
    assert a == u * p + a % u;
    assert b == u * q + b % u;
    if p > q {
      assert u * p - u * q == u * (p - q);
      MulAtLeast(u, p - q);
      assert false;
    }
  }

  /** init_buffer: reserves an address range of `size` bytes for a buffer of
      `unit`-byte elements. `reserved` is the operating system's answer to the
      reservation; when it is refused no buffer is made (the source returns 0). */
  method InitBuffer<T(0)>(size: int, unit: nat, zero: T, commitGranted: int -> bool, reserved: bool)
    returns (b: GrowableBuffer?<T>)
    requires 0 <= size && 0 < unit
    ensures b == null <==> !reserved
    ensures b != null ==>
      && fresh(b) && fresh(b.data) && b.Valid()
      && b.size == size && b.unit == unit && b.zero == zero && b.commitGranted == commitGranted
      && b.firstIn == 0 && b.nextIn == 0 && b.commitThreshold == 0 && b.Contents() == []
  {
    if !reserved {
      return null;
    }
    b := new GrowableBuffer.Init(size, unit, zero, commitGranted);
  }

  class GrowableBuffer<T(0)> {
    /** Size in bytes of one element of the buffer. */
    const unit: nat
    /** The value freshly reserved memory reads as (mmap/VirtualAlloc zero it). */
    const zero: T
    /** The operating system's answer to "commit the block starting at this
        offset" (mprotect/VirtualAlloc succeeded). It is not specified. */
    const commitGranted: int -> bool
    /** Reserved capacity in bytes (`size`). */
    const size: int
    /** The reserved address range. */
    const data: array<T>

    var firstIn: int          // first_in_offset: the read offset
    var nextIn: int           // next_in_offset: the write offset
    var commitThreshold: int  // commit_threshold_offset: bytes committed so far
    ghost var firstSlot: nat
    ghost var nextSlot: nat

    ghost predicate Valid()
      reads this, data
    {
      && 0 < unit && 0 <= size && data.Length == size / unit
      && firstSlot <= nextSlot <= data.Length
      && firstIn == unit * firstSlot && nextIn == unit * nextSlot && nextIn <= size
      && 0 <= commitThreshold && commitThreshold % COMMIT_BLOCK_SIZE == 0
      && forall i :: nextSlot <= i < data.Length ==> data[i] == zero
    }

    /** The written but not yet popped elements, oldest first. */
    ghost function Contents(): seq<T>
      reads this, data
      requires Valid()
    {
      data[firstSlot .. nextSlot]
    }

    /** The buffer init_buffer sets up once the address range is reserved: it
        records the capacity and sets the read, write and commit offsets to 0. */
    constructor Init(size: int, unit: nat, zero: T, commitGranted: int -> bool)
      requires 0 <= size && 0 < unit
      ensures Valid()
      ensures this.size == size && this.unit == unit && this.zero == zero
      ensures this.commitGranted == commitGranted && fresh(data)
      ensures firstIn == 0 && nextIn == 0 && commitThreshold == 0
      ensures Contents() == []
    {
      this.unit := unit;
      this.zero := zero;
      this.commitGranted := commitGranted;
      this.size := size;
      this.data := new T[size / unit](_ => zero);
      firstIn, nextIn, commitThreshold := 0, 0, 0;
      firstSlot, nextSlot := 0, 0;
    }

    /** buffer_push: reserves `bytes` bytes at the write offset and returns the
        offset of the reserved region. It halts, touching nothing, when the
        capacity left is smaller than the request; when the new write offset
        passes the commit threshold it commits one more block, and halts if
        that commit is refused (the write offset has moved by then). */
    method Push(bytes: int) returns (r: Outcome<int>)
      requires Valid()
      requires 0 <= bytes && bytes % unit == 0
      modifies this
      ensures Valid()
      ensures firstIn == old(firstIn)
      // capacity exceeded: halt before any offset changes
      ensures size - old(nextIn) < bytes <==> r == Halt(CapacityExceeded)
      ensures r == Halt(CapacityExceeded) ==>
        nextIn == old(nextIn) && commitThreshold == old(commitThreshold)
      // otherwise the write offset advances by exactly `bytes`
      ensures r != Halt(CapacityExceeded) ==>
        && nextIn == old(nextIn) + bytes
        && nextSlot == old(nextSlot) + bytes / unit
        && Contents() == old(Contents()) + data[old(nextSlot) .. nextSlot]
      // the threshold grows by one block exactly when the new write offset
      // passes it and the block is granted
      ensures r != Halt(CapacityExceeded) ==>
        if nextIn <= old(commitThreshold) then
          r == Ok(old(nextIn)) && commitThreshold == old(commitThreshold)
        else if commitGranted(old(commitThreshold)) then
          r == Ok(old(nextIn)) && commitThreshold == old(commitThreshold) + COMMIT_BLOCK_SIZE
        else
          r == Halt(CommitFailure) && commitThreshold == old(commitThreshold)
      ensures r.Ok? && bytes <= COMMIT_BLOCK_SIZE && old(nextIn) <= old(commitThreshold) ==>
        nextIn <= commitThreshold
    {
      if size - nextIn < bytes {
        return Halt(CapacityExceeded);
      }
      var count := bytes / unit;
      SlotsFit(nextSlot, count, unit, size);
      var result := nextIn;
      nextIn := nextIn + bytes;
      nextSlot := nextSlot + count;
      if nextIn > commitThreshold {
        var committed := CommitMemory();
        if !committed {
          return Halt(CommitFailure);
        }
      }
      r := Ok(result);
    }

    /** commit_memory: asks for the block at the commit threshold and, when it
        is granted, moves the threshold past it. */
    method CommitMemory() returns (ok: bool)
      requires Valid()
      modifies this`commitThreshold
      ensures Valid()
      ensures ok == commitGranted(old(commitThreshold))
      ensures commitThreshold == if ok then old(commitThreshold) + COMMIT_BLOCK_SIZE else old(commitThreshold)
    {
      ok := commitGranted(commitThreshold);
      if ok {
        commitThreshold := commitThreshold + COMMIT_BLOCK_SIZE;
      }
    }

    /** buffer_pop: the popped range must lie within written, unread data (the
        source asserts this); returns the old read offset and advances it. */
    method Pop(bytes: int) returns (offset: int)
      requires Valid()
      requires 0 <= bytes && bytes % unit == 0
      requires firstIn + bytes <= nextIn && firstIn + bytes <= size
      modifies this`firstIn, this`firstSlot
      ensures Valid()
      ensures offset == old(firstIn) && firstIn == old(firstIn) + bytes
      ensures firstSlot == old(firstSlot) + bytes / unit
      ensures Contents() == old(Contents())[bytes / unit ..]
    {
      var count := bytes / unit;
      SlotsFit(firstSlot, count, unit, nextIn);
      MulDivCancel(nextSlot, unit);
      offset := firstIn;
      firstIn := firstIn + bytes;
      firstSlot := firstSlot + count;
    }
  }
}
