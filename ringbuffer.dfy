/**
 * The UART receive ring buffer of the SettingUpUART note: a fixed-length
 * byte array with a write cursor `head` and a read cursor `tail`, both
 * wrapping at `len`. Equal cursors mean "empty"; there is no "full" state,
 * so a writer that catches up with the reader silently discards everything
 * that was unread.
 *
 * `Ring` is the value view of the buffer and `AfterWrite` / `AfterRead`
 * say what one write or one read does to it; the class `Ringbuffer` is the
 * in-place implementation and is proved against them.
 */
module RingBuffers {

  /** Storage, write cursor and read cursor of a ring buffer. */
  datatype Ring = Ring(storage: seq<bv8>, head: nat, tail: nat)

  /** The cursor bounds every write and read keeps (needs a non-empty buffer). */
  predicate Wf(r: Ring) {
    0 < |r.storage| && r.head < |r.storage| && r.tail < |r.storage|
  }

  /** The bytes written and not yet read, oldest first. */
  function Unread(r: Ring): (u: seq<bv8>)
    requires Wf(r)
    ensures |u| < |r.storage|
    ensures u == [] <==> r.head == r.tail
  {
    if r.tail <= r.head then r.storage[r.tail..r.head]
    else r.storage[r.tail..] + r.storage[..r.head]
  }

  /** `ringbuffer_write`: store at `head`, then advance `head`, wrapping to 0. */
  function AfterWrite(r: Ring, x: bv8): (r': Ring)
    requires Wf(r)
    ensures Wf(r') && r'.tail == r.tail && |r'.storage| == |r.storage|
    ensures r'.storage[r.head] == x
    ensures forall i :: 0 <= i < |r.storage| && i != r.head ==> r'.storage[i] == r.storage[i]
    ensures r'.head == if r.head + 1 >= |r.storage| then 0 else r.head + 1
  {
    Ring(r.storage[r.head := x], if r.head + 1 >= |r.storage| then 0 else r.head + 1, r.tail)
  }

  /**
   * A write queues its byte behind the unread ones, unless it fills the last
   * free slot: then the buffer reads as empty and all unread bytes are lost.
   */
  lemma WriteQueues(r: Ring, x: bv8)
    requires Wf(r)
    ensures |Unread(r)| < |r.storage| - 1 ==> Unread(AfterWrite(r, x)) == Unread(r) + [x]
    ensures |Unread(r)| == |r.storage| - 1 ==> Unread(AfterWrite(r, x)) == []
  {
    var r' := AfterWrite(r, x);
    assert r.tail <= r.head ==> r'.storage[r.tail..r.head] == r.storage[r.tail..r.head];
    assert r.tail > r.head ==> r'.storage[r.tail..] == r.storage[r.tail..];
    assert r.tail > r.head ==> r'.storage[..r.head] == r.storage[..r.head];
  }

  /**
   * `ringbuffer_read`: `(0, r)` when the cursors are equal, otherwise the byte
   * at `tail` and the ring with `tail` advanced, wrapping to 0.
   */
  function AfterRead(r: Ring): (res: (bv8, Ring))
    requires Wf(r)
    ensures Wf(res.1) && res.1.storage == r.storage && res.1.head == r.head
    ensures res.1.tail == if r.tail == r.head then r.tail else if r.tail < |r.storage| - 1 then r.tail + 1 else 0
  {
    if r.tail == r.head then (0, r)
    else (r.storage[r.tail], r.(tail := if r.tail < |r.storage| - 1 then r.tail + 1 else 0))
  }

  /** A read takes the oldest unread byte; an empty buffer reads as 0 and is left alone. */
  lemma ReadTakesOldest(r: Ring)
    requires Wf(r)
    ensures Unread(r) == [] ==> AfterRead(r) == (0, r)
    ensures Unread(r) != [] ==> AfterRead(r).0 == Unread(r)[0] && Unread(AfterRead(r).1) == Unread(r)[1..]
    // a stored zero byte reads exactly like "nothing to read" ...
    ensures AfterRead(r).0 == 0 <==> Unread(r) == [] || Unread(r)[0] == 0
    // ... although only the empty buffer leaves `tail` where it was
    ensures AfterRead(r).1.tail == r.tail <==> Unread(r) == []
  {
    var r' := AfterRead(r).1;
    assert r.tail < r.head ==> Unread(r') == Unread(r)[1..];
  }

  /** Writes `xs` one byte after the other, with no read in between. */
  function AfterWrites(r: Ring, xs: seq<bv8>): (r': Ring)
    requires Wf(r)
    ensures Wf(r') && r'.tail == r.tail && |r'.storage| == |r.storage|
    decreases |xs|
  {
    if xs == [] then r else AfterWrites(AfterWrite(r, xs[0]), xs[1..])
  }

  /** Bytes written while there is room are queued in order. */
  lemma {:induction false} WritesQueue(r: Ring, xs: seq<bv8>)
    requires Wf(r) && |Unread(r)| + |xs| < |r.storage|
    ensures Unread(AfterWrites(r, xs)) == Unread(r) + xs
    decreases |xs|
  {
    if xs != [] {
      WriteQueues(r, xs[0]);
      WritesQueue(AfterWrite(r, xs[0]), xs[1..]);
      assert [xs[0]] + xs[1..] == xs;
    }
  }

  /** Performs `n` reads; the first component holds the values they return. */
  function AfterReads(r: Ring, n: nat): (res: (seq<bv8>, Ring))
    requires Wf(r)
    ensures Wf(res.1) && |res.0| == n && res.1.storage == r.storage && res.1.head == r.head
    decreases n
  {
    if n == 0 then ([], r)
    else
      var (c, r1) := AfterRead(r);
      var (cs, r2) := AfterReads(r1, n - 1);
      ([c] + cs, r2)
  }

  /** `n` reads return the unread bytes in order, then zeros once those run out. */
  lemma {:induction false} ReadsTakeOldest(r: Ring, n: nat)
    requires Wf(r)
    ensures forall i :: 0 <= i < n ==> AfterReads(r, n).0[i] == if i < |Unread(r)| then Unread(r)[i] else 0
    decreases n
  {
    if n > 0 {
      ReadTakesOldest(r);
      var (c, r1) := AfterRead(r);
      ReadsTakeOldest(r1, n - 1);
      var u, u1 := Unread(r), Unread(r1);
      var got, rest := AfterReads(r, n).0, AfterReads(r1, n - 1).0;
      assert got == [c] + rest;
      if u == [] {
        assert u1 == [] && c == 0;
        forall i | 0 <= i < n
          ensures got[i] == 0
        {
          if i > 0 {
            assert got[i] == rest[i - 1];
          }
        }
      } else {
        assert u1 == u[1..] && c == u[0];
        forall i | 0 <= i < n
          ensures got[i] == if i < |u| then u[i] else 0
        {
          if i > 0 {
            assert got[i] == rest[i - 1];
          }
        }
      }
    }
  }

  /** `n` reads leave the unread bytes after the first `n`, or none once they run out. */
  lemma {:induction false} ReadsLeaveRest(r: Ring, n: nat)
    requires Wf(r)
    ensures Unread(AfterReads(r, n).1) == if n <= |Unread(r)| then Unread(r)[n..] else []
    decreases n
  {
    if n > 0 {
      ReadTakesOldest(r);
      var r1 := AfterRead(r).1;
      ReadsLeaveRest(r1, n - 1);
      var u, u1 := Unread(r), Unread(r1);
      assert AfterReads(r, n).1 == AfterReads(r1, n - 1).1;
      if u == [] {
        assert u1 == [];
      } else {
        assert u1 == u[1..] && |u1| == |u| - 1;
        if n <= |u| {
          assert u1[n - 1..] == u[n..];
        }
      }
    }
  }

  /** Reads from an empty buffer leave it exactly as it was. */
  lemma {:induction false} EmptyReadsLeaveRing(r: Ring, n: nat)
    requires Wf(r) && r.head == r.tail
    ensures AfterReads(r, n).1 == r
    decreases n
  {
    if n > 0 {
      assert AfterRead(r) == (0, r);
      EmptyReadsLeaveRing(r, n - 1);
    }
  }

  /** One operation of a producer/consumer session. */
  datatype Op = WriteOp(x: bv8) | ReadOp

  /** Applies `ops` in order, discarding the values read. */
  function Run(r: Ring, ops: seq<Op>): (r': Ring)
    requires Wf(r)
    ensures Wf(r') && |r'.storage| == |r.storage|
    decreases |ops|
  {
    if ops == [] then r
    else
      var r1 := match ops[0]
        case WriteOp(x) => AfterWrite(r, x)
        case ReadOp => AfterRead(r).1;
      Run(r1, ops[1..])
  }

  /** Writing `a` and then `b` is writing `a + b`. */
  lemma {:induction false} AfterWritesAppend(r: Ring, a: seq<bv8>, b: seq<bv8>)
    requires Wf(r)
    ensures AfterWrites(r, a + b) == AfterWrites(AfterWrites(r, a), b)
    decreases |a|
  {
    if a != [] {
      var r1 := AfterWrite(r, a[0]);
      assert (a + b)[0] == a[0] && (a + b)[1..] == a[1..] + b;
      assert AfterWrites(r, a + b) == AfterWrites(r1, a[1..] + b);
      assert AfterWrites(r, a) == AfterWrites(r1, a[1..]);
      AfterWritesAppend(r1, a[1..], b);
    } else {
      assert a + b == b;
    }
  }

  /**
   * First in, first out: from an empty buffer, up to `len - 1` written bytes
   * come back in the order they were written, and the next read yields 0.
   */
  lemma FifoRoundTrip(r: Ring, xs: seq<bv8>)
    requires Wf(r) && Unread(r) == [] && |xs| < |r.storage|
    ensures AfterReads(AfterWrites(r, xs), |xs| + 1).0 == xs + [0]
  {
    var w := AfterWrites(r, xs);
    WritesQueue(r, xs);
    ReadsTakeOldest(w, |xs| + 1);
    var got := AfterReads(w, |xs| + 1).0;
    assert Unread(w) == xs;
    forall i | 0 <= i < |xs| + 1
      ensures got[i] == (xs + [0])[i]
    {
      if i < |xs| {
        assert got[i] == xs[i];
      } else {
        assert got[i] == 0;
      }
    }
    assert got == xs + [0];
  }

  /**
   * Silent overwrite: from an empty buffer, `len` writes with no read bring
   * `head` back onto `tail`, so every one of the written bytes is lost and the
   * buffer reads as empty.
   */
  lemma FullLapReadsEmpty(r: Ring, xs: seq<bv8>)
    requires Wf(r) && Unread(r) == [] && |xs| == |r.storage|
    ensures AfterWrites(r, xs).head == AfterWrites(r, xs).tail
    ensures Unread(AfterWrites(r, xs)) == []
    ensures AfterReads(AfterWrites(r, xs), |xs|).0 == seq(|xs|, _ => 0)
  {
    var n := |xs|;
    assert xs[..n - 1] + [xs[n - 1]] == xs;
    var w := AfterWrites(r, xs[..n - 1]);
    var full := AfterWrites(r, xs);
    AfterWritesAppend(r, xs[..n - 1], [xs[n - 1]]);
    assert AfterWrites(w, [xs[n - 1]]) == AfterWrites(AfterWrite(w, xs[n - 1]), []);
    assert full == AfterWrite(w, xs[n - 1]);
    WritesQueue(r, xs[..n - 1]);
    WriteQueues(w, xs[n - 1]);
    assert Unread(full) == [];
    ReadsTakeOldest(full, n);
    var got := AfterReads(full, n).0;
    assert forall i :: 0 <= i < n ==> got[i] == 0;
    assert got == seq(n, _ => 0);
  }

  /** Reading an empty buffer any number of times yields zeros and changes nothing. */
  lemma EmptyReadsIdempotent(r: Ring, n: nat)
    requires Wf(r) && r.head == r.tail
    ensures AfterReads(r, n) == (seq(n, _ => 0), r)
  {
    ReadsTakeOldest(r, n);
    EmptyReadsLeaveRing(r, n);
    var res := AfterReads(r, n);
    assert res.0 == seq(n, _ => 0);
  }

  /**
   * The driver's ring buffer, updated in place. `len` and `buffer` are fixed
   * when the buffer is set up; `head` belongs to the writer, `tail` to the reader.
   */
  class Ringbuffer {
    const len: nat
    const buffer: array<bv8>
    var head: nat
    var tail: nat

    ghost predicate Valid()
      reads this, buffer
    {
      buffer.Length == len && Wf(State())
    }

    /** The value view of the buffer. */
    ghost function State(): Ring
      reads this, buffer
    {
      Ring(buffer[..], head, tail)
    }

    constructor (len: nat)
      requires 0 < len
      ensures Valid() && fresh(buffer) && this.len == len
      ensures head == 0 && tail == 0 && Unread(State()) == []
    {
      this.len := len;
      buffer := new bv8[len];
      head, tail := 0, 0;
    }

    /** `ringbuffer_write(rb, x)`. */
    method Write(x: bv8)
      requires Valid()
      modifies this`head, buffer
      ensures Valid()
      ensures State() == AfterWrite(old(State()), x)
    {
      buffer[head] := x;
      if head + 1 >= len {
        head := 0;
      } else {
        head := head + 1;
      }
    }

    /** `ringbuffer_read(buf)`. */
    method Read() returns (c: bv8)
      requires Valid()
      modifies this`tail
      ensures Valid()
      ensures (c, State()) == AfterRead(old(State()))
    {
      if tail == head {
        return 0;
      }
      c := buffer[tail];
      tail := if tail < len - 1 then tail + 1 else 0;
    }
  }
}
