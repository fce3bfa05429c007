/** The int and string codec on top of the way buffer
    (src/buffer.c:141-190; buffer.c:70-117 holds the same four functions).

    The way buffer is only ever pushed and popped in units of one C `int`. A
    string is stored as 4-byte chunks: its bytes, then NUL padding, ended by
    the first chunk whose fourth byte is 0. A chunk's bytes are read as an
    `int` in the byte order of the host; the model takes that order to be
    little-endian and the `int` to be 32-bit two's complement. */
module WayCodec {
  import opened CTypes
  import opened GrowableBuffers

  /** A C string: no byte of it is the NUL terminator. */
  predicate NulFree(s: seq<Byte>) {
    forall i :: 0 <= i < |s| ==> s[i] != 0
  }

  /** The four bytes of the int `v`, in memory order (`chunk[0..3]`). */
  function Unpack(v: int): (c: seq<Byte>)
    ensures |c| == 4
  {
    var u := v % 0x1_0000_0000;
    [ (u % 0x100) as Byte, (u / 0x100 % 0x100) as Byte,
      (u / 0x1_0000 % 0x100) as Byte, (u / 0x100_0000) as Byte ]
  }

  /** The bytes of the unsigned little-endian value of `c` are `c`. */
  lemma UnpackValue(c: seq<Byte>, u: int)
    requires |c| == 4
    requires u == c[0] as int + 0x100 * c[1] as int + 0x1_0000 * c[2] as int + 0x100_0000 * c[3] as int
    ensures 0 <= u < 0x1_0000_0000
    ensures u % 0x100 == c[0] as int && u / 0x100 % 0x100 == c[1] as int
    ensures u / 0x1_0000 % 0x100 == c[2] as int && u / 0x100_0000 == c[3] as int
  {
    var t := c[1] as int + 0x100 * c[2] as int + 0x1_0000 * c[3] as int;
    assert u == c[0] as int + 0x100 * t;
    assert u / 0x100 == t;
    var t2 := c[2] as int + 0x100 * c[3] as int;
    assert t == c[1] as int + 0x100 * t2;
    assert t / 0x100 == t2;
    assert u / 0x1_0000 == t2;
    assert u / 0x100_0000 == c[3] as int;
  }

  /** `*(int *)chunk`: the int whose bytes are `c`. */
  function Pack(c: seq<Byte>): (v: int)
    requires |c| == 4
    ensures IsInt32(v)
  {
    var u := c[0] as int + 0x100 * c[1] as int + 0x1_0000 * c[2] as int + 0x100_0000 * c[3] as int;
    if u <= INT_MAX then u else u - 0x1_0000_0000
  }

  /** Unpacking the int packed from four bytes gives those bytes back. */
  lemma UnpackPack(c: seq<Byte>)
    requires |c| == 4
    ensures Unpack(Pack(c)) == c
  {
    var u := c[0] as int + 0x100 * c[1] as int + 0x1_0000 * c[2] as int + 0x100_0000 * c[3] as int;
    UnpackValue(c, u);
    assert Pack(c) % 0x1_0000_0000 == u;
  }

  /** The fourth byte of a chunk, the one that ends a string when it is 0. */
  function Byte3(v: int): Byte {
    (v % 0x1_0000_0000 / 0x100_0000) as Byte
  }

  lemma Byte3OfPack(c: seq<Byte>)
    requires |c| == 4
    ensures Byte3(Pack(c)) == c[3]
  {
    UnpackPack(c);
    assert Unpack(Pack(c))[3] == c[3];
  }

  function Zeros(n: nat): (z: seq<Byte>)
    ensures |z| == n && forall i :: 0 <= i < n ==> z[i] == 0
  {
    if n == 0 then [] else [0] + Zeros(n - 1)
  }

  /** The next chunk the source fills from the string `t`: four bytes of it,
      the NUL terminator repeated once `t` runs out. */
  function NextChunk(t: seq<Byte>): (c: seq<Byte>)
    ensures |c| == 4
  {
    seq(4, i requires 0 <= i < 4 => if i < |t| then t[i] else 0)
  }

  /** The ints way_buffer_push_string stores for the string `s`. */
  function EncodeString(s: seq<Byte>): (q: seq<int>)
    ensures |q| == |s| / 4 + 1
    decreases |s|
  {
    [Pack(NextChunk(s))] + if |s| < 4 then [] else EncodeString(s[4..])
  }

  /** The bytes of a sequence of ints, in memory order. */
  function Flatten(q: seq<int>): (s: seq<Byte>)
    ensures |s| == 4 * |q|
  {
    if q == [] then [] else Unpack(q[0]) + Flatten(q[1..])
  }

  /** A C string read from `s`: its bytes up to the first NUL. */
  function TakeUntilNul(s: seq<Byte>): (t: seq<Byte>)
    ensures |t| <= |s| && t == s[..|t|] && NulFree(t)
    ensures |t| < |s| ==> s[|t|] == 0
  {
    if s == [] || s[0] == 0 then [] else [s[0]] + TakeUntilNul(s[1..])
  }

  /** Some int of `q` has a zero fourth byte, so a string pop ends within it. */
  predicate Terminated(q: seq<int>) {
    |q| > 0 && (Byte3(q[0]) == 0 || Terminated(q[1..]))
  }

  /** How many ints way_buffer_pop_string consumes from `q`: up to and
      including the first one whose fourth byte is 0. */
  function Extent(q: seq<int>): (n: nat)
    requires Terminated(q)
    ensures 1 <= n <= |q|
  {
    if Byte3(q[0]) == 0 then 1 else 1 + Extent(q[1..])
  }

  /** The string way_buffer_pop_string returns when the unread ints are `q`. */
  function DecodeString(q: seq<int>): (s: seq<Byte>)
    requires Terminated(q)
    ensures NulFree(s) && |s| <= 4 * Extent(q)
  {
    TakeUntilNul(Flatten(q[..Extent(q)]))
  }

  /** The chunks hold the string's bytes followed by one to four NULs. */
  lemma {:induction false} EncodeStringBytes(s: seq<Byte>)
    ensures Flatten(EncodeString(s)) == s + Zeros(4 - |s| % 4)
  {
    var q := EncodeString(s);
    var c := NextChunk(s);
    UnpackPack(c);
    assert Unpack(q[0]) == c;
    if |s| < 4 {
      assert q[1..] == [];
      assert Flatten(q) == c + Flatten([]);
    } else {
      var r := EncodeString(s[4..]);
      var k := 4 - |s| % 4;
      assert |s[4..]| % 4 == |s| % 4;
      EncodeStringBytes(s[4..]);
      calc {
        Flatten(q);
        Unpack(q[0]) + Flatten(q[1..]);
        { assert q[1..] == r; }
        s[..4] + Flatten(r);
        s[..4] + (s[4..] + Zeros(k));
        (s[..4] + s[4..]) + Zeros(k);
        { assert s[..4] + s[4..] == s; }
        s + Zeros(k);
      }
    }
  }

  /** The fourth byte of every chunk of a C string is non-zero except in the
      last chunk, where it is 0. */
  lemma {:induction false} EncodeStringEnds(s: seq<Byte>)
    requires NulFree(s)
    ensures var q := EncodeString(s);
      && Byte3(q[|q| - 1]) == 0
      && forall i :: 0 <= i < |q| - 1 ==> Byte3(q[i]) != 0
  {
    var q := EncodeString(s);
    Byte3OfPack(NextChunk(s));
    if |s| >= 4 {
      var r := EncodeString(s[4..]);
      EncodeStringEnds(s[4..]);
      assert q == [q[0]] + r;
      assert Byte3(q[0]) == s[3];
      assert forall i :: 1 <= i < |q| ==> q[i] == r[i - 1];
    }
  }

  lemma {:induction false} TakeUntilNulPadded(s: seq<Byte>, n: nat)
    requires NulFree(s) && n > 0
    ensures TakeUntilNul(s + Zeros(n)) == s
  {
    if s == [] {
      assert (s + Zeros(n))[0] == 0;
    } else {
      assert (s + Zeros(n))[1..] == s[1..] + Zeros(n);
      TakeUntilNulPadded(s[1..], n);
    }
  }

  lemma {:induction false} ExtentOf(q: seq<int>, n: nat)
    requires 1 <= n <= |q| && Byte3(q[n - 1]) == 0
    requires forall i :: 0 <= i < n - 1 ==> Byte3(q[i]) != 0
    ensures Terminated(q) && Extent(q) == n
  {
    if n > 1 {
      ExtentOf(q[1..], n - 1);
    }
  }

  /** Round trip: popping a string off ints that begin with the chunks of a
      pushed C string consumes exactly those chunks and yields the string. */
  lemma StringRoundTrip(s: seq<Byte>, rest: seq<int>)
    requires NulFree(s)
    ensures var q := EncodeString(s) + rest;
      && Terminated(q)
      && Extent(q) == |EncodeString(s)|
      && DecodeString(q) == s
  {
    var e := EncodeString(s);
    var q := e + rest;
    EncodeStringEnds(s);
    EncodeStringBytes(s);
    ExtentOf(q, |e|);
    assert q[..|e|] == e;
    TakeUntilNulPadded(s, 4 - |s| % 4);
  }

  /** way_buffer_push_int: pushes one int into the buffer. */
  method PushInt(b: GrowableBuffer<int>, value: int) returns (r: Outcome<int>)
    requires b.Valid() && b.unit == INT_SIZE
    modifies b, b.data
    ensures b.Valid() && b.firstIn == old(b.firstIn)
    ensures r == Halt(CapacityExceeded) <==> b.size - old(b.nextIn) < INT_SIZE
    ensures r == Halt(CommitFailure) <==>
      INT_SIZE <= b.size - old(b.nextIn) && old(b.commitThreshold) < old(b.nextIn) + INT_SIZE
      && !b.commitGranted(old(b.commitThreshold))
    ensures r != Halt(AssertionFailed)
    ensures r == Halt(CapacityExceeded) ==> b.nextIn == old(b.nextIn)
    ensures r == Halt(CommitFailure) ==>
      b.commitThreshold == old(b.commitThreshold) && b.nextIn == old(b.nextIn) + INT_SIZE
    ensures b.commitThreshold >= old(b.commitThreshold)
    ensures r.Ok? ==>
      && r.value == old(b.nextIn)
      && b.nextIn == old(b.nextIn) + INT_SIZE
      && b.Contents() == old(b.Contents()) + [value]
      && (old(b.nextIn) <= old(b.commitThreshold) ==> b.nextIn <= b.commitThreshold)
  {
    r := b.Push(INT_SIZE);
    if r.Ok? {
      var slot := r.value / INT_SIZE;
      b.data[slot] := value;
      assert b.data[slot .. b.nextSlot] == [value];
    }
  }

  /** A store through the pointer way_buffer_push_int returned: the int at
      byte offset `offset` of the written, unread data becomes `v`. */
  method StoreInt(b: GrowableBuffer<int>, offset: int, v: int)
    requires b.Valid() && b.unit == INT_SIZE
    requires offset % INT_SIZE == 0 && b.firstIn <= offset < b.nextIn
    modifies b.data
    ensures b.Valid()
    ensures b.Contents() == old(b.Contents())[offset / INT_SIZE - b.firstSlot := v]
  {
    var slot := offset / INT_SIZE;
    MulDivCancel(b.firstSlot, INT_SIZE);
    MulDivCancel(b.nextSlot, INT_SIZE);
    DivLe(b.firstIn, offset, INT_SIZE);
    DivLe(offset, b.nextIn - INT_SIZE, INT_SIZE);
    MulDivCancel(b.nextSlot - 1, INT_SIZE);
    b.data[slot] := v;
  }

  /** way_buffer_pop_int: pops the oldest unread int. The source asserts that
      there is one. */
  method PopInt(b: GrowableBuffer<int>) returns (v: int)
    requires b.Valid() && b.unit == INT_SIZE && b.Contents() != []
    modifies b`firstIn, b`firstSlot
    ensures b.Valid() && b.nextIn == old(b.nextIn)
    ensures v == old(b.Contents())[0] && b.Contents() == old(b.Contents())[1..]
  {
    var offset := b.Pop(INT_SIZE);
    v := b.data[offset / INT_SIZE];
  }

  /** The chunk taken from the rest `t` of a C string ends the string exactly
      when fewer than four bytes were left. */
  lemma NextChunkEnds(t: seq<Byte>)
    requires NulFree(t)
    ensures NextChunk(t)[3] == 0 <==> |t| < 4
  {
    if |t| >= 4 {
      assert NextChunk(t)[3] == t[3];
    }
  }

  /** Chunk `k` of a string's encoding is the chunk filled from byte 4k on. */
  lemma {:induction false} EncodeStringAt(s: seq<Byte>, k: nat)
    requires k <= |s| / 4
    ensures k < |EncodeString(s)| && EncodeString(s)[k] == Pack(NextChunk(s[4 * k..]))
  {
    if k > 0 {
      EncodeStringAt(s[4..], k - 1);
      assert s[4..][4 * (k - 1)..] == s[4 * k..];
    }
  }

  /** The first `n` ints of the encoding of `s`, chunk by chunk. */
  ghost function EncodePrefix(s: seq<Byte>, n: nat): (q: seq<int>)
    requires 4 * n <= |s| + 4
    ensures |q| == n
  {
    if n == 0 then [] else EncodePrefix(s, n - 1) + [Pack(NextChunk(s[4 * (n - 1)..]))]
  }

  /** The chunk loop pushes the whole encoding after |s|/4 + 1 passes. */
  lemma EncodePrefixComplete(s: seq<Byte>)
    ensures EncodePrefix(s, |s| / 4 + 1) == EncodeString(s)
  {
    EncodePrefixAt(s, |s| / 4 + 1);
  }

  lemma {:induction false} EncodePrefixAt(s: seq<Byte>, n: nat)
    requires n <= |s| / 4 + 1
    ensures EncodePrefix(s, n) == EncodeString(s)[..n]
  {
    if n > 0 {
      var q := EncodeString(s);
      EncodePrefixAt(s, n - 1);
      EncodeStringAt(s, n - 1);
      calc {
        EncodePrefix(s, n);
        EncodePrefix(s, n - 1) + [Pack(NextChunk(s[4 * (n - 1)..]))];
        q[..n - 1] + [q[n - 1]];
        { assert q[..n] == q[..n - 1] + [q[n - 1]]; }
        q[..n];
      }
    }
  }

  /** The inner loop of way_buffer_push_string: copies four bytes from the
      string position `start` into a chunk, the string pointer advancing only
      past non-NUL bytes, so that it stops at the terminator. */
  method FillChunk(s: seq<Byte>, start: nat) returns (chunk: seq<Byte>, pos: nat)
    requires start <= |s| && NulFree(s)
    ensures chunk == NextChunk(s[start..])
    ensures pos == if start + 4 <= |s| then start + 4 else |s|
  {
    pos := start;
    chunk := [];
    for i := 0 to 4
      invariant pos == if start + i <= |s| then start + i else |s|
      invariant |chunk| == i
      invariant forall j :: 0 <= j < i ==> chunk[j] == if start + j < |s| then s[start + j] else 0
    {
      var c: Byte := if pos < |s| then s[pos] else 0;
      chunk := chunk + [c];
      if c != 0 {
        pos := pos + 1;
      }
    }
  }

  lemma AppendAssoc<T>(a: seq<T>, b: seq<T>, c: seq<T>)
    ensures (a + b) + c == a + (b + c)
  {
  }

  /** way_buffer_push_string: a do-while loop that fills a 4-byte chunk from
      the string, pushes it as an int, and stops after the chunk whose fourth
      byte is 0. */
  method PushString(b: GrowableBuffer<int>, s: seq<Byte>) returns (r: Outcome<()>)
    requires b.Valid() && b.unit == INT_SIZE && NulFree(s)
    modifies b, b.data
    ensures b.Valid() && b.firstIn == old(b.firstIn)
    // it halts only as one of its int pushes does: out of capacity when the
    // chunks do not all fit, or when the commit of the block at the
    // threshold is refused
    ensures r.Halt? ==> r.reason != AssertionFailed
    ensures r == Halt(CapacityExceeded) ==> b.size - old(b.nextIn) < INT_SIZE * |EncodeString(s)|
    ensures r == Halt(CommitFailure) ==>
      && b.nextIn > b.commitThreshold >= old(b.commitThreshold)
      && !b.commitGranted(b.commitThreshold)
    // room for every chunk and every block granted: it succeeds
    ensures (&& b.size - old(b.nextIn) >= INT_SIZE * |EncodeString(s)|
             && forall t :: old(b.commitThreshold) <= t ==> b.commitGranted(t)) ==> r.Ok?
    ensures r.Ok? ==>
      && b.Contents() == old(b.Contents()) + EncodeString(s)
      && (old(b.nextIn) <= old(b.commitThreshold) ==> b.nextIn <= b.commitThreshold)
  {
    var pos := 0;  // how far the string pointer has moved
    ghost var done: seq<int> := [];
    ghost var contents0 := b.Contents();
    while true
      invariant b.Valid() && b.unit == INT_SIZE && b.firstIn == old(b.firstIn)
      invariant pos == 4 * |done| <= |s|
      invariant done == EncodePrefix(s, |done|)
      invariant b.Contents() == contents0 + done
      invariant b.nextIn == old(b.nextIn) + INT_SIZE * |done|
      invariant old(b.nextIn) <= old(b.commitThreshold) ==> b.nextIn <= b.commitThreshold
      invariant b.commitThreshold >= old(b.commitThreshold)
      decreases |s| - pos
    {
      NextChunkEnds(s[pos..]);
      var chunk;
      chunk, pos := FillChunk(s, pos);
      var v := Pack(chunk);
      var pushed := PushInt(b, v);
      if pushed.Halt? {
        assert |done| + 1 <= |s| / 4 + 1;
        return Halt(pushed.reason);
      }
      AppendAssoc(contents0, done, [v]);
      assert EncodePrefix(s, |done| + 1) == done + [v];
      done := done + [v];
      if chunk[3] == 0 {
        assert |done| == |s| / 4 + 1;
        break;
      }
    }
    EncodePrefixComplete(s);
    assert done == EncodeString(s);
    r := Ok(());
  }

  /** The do-while loop of way_buffer_pop_string: pops ints up to and
      including the first one whose fourth byte is 0, and returns them. */
  method PopChunks(b: GrowableBuffer<int>) returns (popped: seq<int>)
    requires b.Valid() && b.unit == INT_SIZE && Terminated(b.Contents())
    modifies b`firstIn, b`firstSlot
    ensures b.Valid() && b.nextIn == old(b.nextIn)
    ensures popped == old(b.Contents())[..Extent(old(b.Contents()))]
    ensures b.Contents() == old(b.Contents())[Extent(old(b.Contents()))..]
  {
    ghost var q := b.Contents();
    popped := [];
    while true
      invariant b.Valid() && b.unit == INT_SIZE && b.nextIn == old(b.nextIn)
      invariant Terminated(b.Contents())
      invariant |popped| + Extent(b.Contents()) == Extent(q)
      invariant popped == q[..|popped|] && b.Contents() == q[|popped|..]
      decreases |b.Contents()|
    {
      ghost var k := |popped|;
      var v := PopInt(b);
      assert v == q[k] && q[k..][1..] == q[k + 1..];
      assert q[..k + 1] == q[..k] + [q[k]];
      popped := popped + [v];
      if Byte3(v) == 0 {
        break;
      }
    }
  }

  /** way_buffer_pop_string: pops the chunks of one string and returns the C
      string that starts at the first of them. The source asserts that a
      chunk with a zero fourth byte is there. The zero-byte buffer_pop the
      source makes to learn where the string starts changes nothing and is
      not modelled as a call. */
  method PopString(b: GrowableBuffer<int>) returns (name: seq<Byte>)
    requires b.Valid() && b.unit == INT_SIZE && Terminated(b.Contents())
    modifies b`firstIn, b`firstSlot
    ensures b.Valid() && b.nextIn == old(b.nextIn)
    ensures name == DecodeString(old(b.Contents()))
    ensures b.Contents() == old(b.Contents())[Extent(old(b.Contents()))..]
  {
    var popped := PopChunks(b);
    name := TakeUntilNul(Flatten(popped));
  }

}
