/** buffer.c: a byte buffer with a read index and a write index over one array. */
module Buffers {
  import opened Bytes

  /** What a buffer holds, as a value: every octet stored so far (`data` up to the write pointer), how many
      of them were consumed (the read pointer) and the limit. */
  datatype Fifo = Fifo(written: Str, read: nat, limit: nat) {
    ghost predicate Ok() {
      read <= |written| <= limit
    }

    function Unread(): Str
      requires read <= |written|
    {
      written[read..]
    }

    function Room(): nat
      requires |written| <= limit
    {
      limit - |written|
    }

    function Reset(): Fifo {
      Fifo([], 0, limit)
    }

    /** `n` octets are stored behind the write pointer, which then advances over them. */
    function Fill(bs: Str): Fifo {
      Fifo(written + bs, read, limit)
    }

    /** Octets written one at a time: those that find no room are lost. */
    function Push(bs: Str): Fifo
      requires |written| <= limit
    {
      Fill(bs[..Min(|bs|, Room())])
    }

    function Compact(): Fifo
      requires read <= |written|
    {
      Fifo(written[read..], 0, limit)
    }

    /** Consumes `n` octets; a drained buffer starts over at the beginning of its array. */
    function Take(n: nat): Fifo
      requires read + n <= |written|
    {
      if read + n == |written| then Fifo([], 0, limit) else Fifo(written, read + n, limit)
    }

    /** The write pointer moves back over the last `n` octets. */
    function Drop(n: nat): Fifo
      requires n <= |written|
    {
      Fifo(written[..|written| - n], read, limit)
    }
  }

  class Buffer {
    const data: array<byte>
    const limit: nat
    var read: nat
    var write: nat

    /** The pointers stay inside the array. */
    ghost predicate Shape()
      reads this
    {
      write <= limit <= data.Length
    }

    /** The invariant of buffer.h: R <= W <= limit. */
    ghost predicate Valid()
      reads this
    {
      Shape() && read <= write
    }

    ghost function View(): Fifo
      requires Shape()
      reads this, data
    {
      Fifo(data[..write], read, limit)
    }

    constructor (storage: array<byte>, n: nat)
      requires n <= storage.Length
      ensures Valid() && data == storage && limit == n
      ensures View() == Fifo([], 0, n)
    {
      data := storage;
      limit := n;
      read := 0;
      write := 0;
    }

    method Reset()
      requires Shape()
      modifies this
      ensures Valid() && View() == old(View()).Reset()
    {
      read := 0;
      write := 0;
    }

    predicate CanWrite()
      requires Shape()
      reads this
      ensures CanWrite() <==> View().Room() > 0
    {
      limit - write > 0
    }

    predicate CanRead()
      requires Valid()
      reads this, data
      ensures CanRead() <==> View().Unread() != []
    {
      write - read > 0
    }

    /** Where the next octet goes and how many fit behind it. */
    method WritePtr() returns (at: nat, count: nat)
      requires Shape()
      ensures at == write && count == View().Room()
    {
      at := write;
      count := limit - write;
    }

    /** Where the unread octets start and how many there are. */
    method ReadPtr() returns (at: nat, count: nat)
      requires Valid()
      ensures at == read && at + count == write && data[at..at + count] == View().Unread()
    {
      at := read;
      count := write - read;
    }

    /** What `recv`, `read` or `memcpy` does with the pointer `WritePtr` gave: the array changes, the pointers do not. */
    method CopyIn(bs: Str)
      requires Shape() && |bs| <= View().Room()
      modifies data
      ensures View() == old(View()) && data[write..write + |bs|] == bs
    {
      forall i | 0 <= i < |bs| {
        data[write + i] := bs[i];
      }
      assert data[..write] == old(data[..write]);
    }

    method WriteAdv(bytes: int)
      requires Shape() && bytes <= View().Room()
      modifies this`write
      ensures Shape() && (old(Valid()) ==> Valid())
      ensures bytes <= -1 ==> View() == old(View())
      ensures bytes > -1 ==> View() == old(View()).Fill(old(data[write..write + bytes]))
    {
      if bytes > -1 {
        assert data[..write + bytes] == data[..write] + data[write..write + bytes];
        write := write + bytes;
      }
    }

    method Compact()
      requires Valid()
      modifies this, data
      ensures Valid() && View() == old(View()).Compact()
    {
      if read == 0 {
      } else if read == write {
        read := 0;
        write := 0;
      } else {
        var n := write - read;
        forall i | 0 <= i < n {
          data[i] := data[read + i];
        }
        assert data[..n] == old(data[read..write]);
        read := 0;
        write := n;
      }
    }

    method ReadAdv(bytes: int)
      requires Valid() && bytes <= |View().Unread()|
      modifies this, data
      ensures Valid()
      ensures bytes <= -1 ==> View() == old(View())
      ensures bytes > -1 ==> View() == old(View()).Take(bytes)
    {
      if bytes > -1 {
        read := read + bytes;
        if read == write {
          Compact();
        }
      }
    }

    method Read() returns (c: byte)
      requires Valid()
      modifies this, data
      ensures Valid()
      ensures old(View()).Unread() == [] ==> c == 0 && View() == old(View())
      ensures old(View()).Unread() != [] ==> c == old(View()).Unread()[0] && View() == old(View()).Take(1)
    {
      if CanRead() {
        c := data[read];
        ReadAdv(1);
      } else {
        c := 0;
      }
    }

    method Write(c: byte)
      requires Shape()
      modifies this`write, data
      ensures Shape() && (old(Valid()) ==> Valid())
      ensures View() == old(View()).Push([c])
    {
      if CanWrite() {
        data[write] := c;
        assert data[..write] == old(data[..write]);
        WriteAdv(1);
      }
    }

    method DeleteN(n: nat)
      requires Shape() && n <= |View().written|
      modifies this`write
      ensures Shape() && View() == old(View()).Drop(n)
    {
      assert data[..write - n] == data[..write][..write - n];
      write := write - n;
    }
  }

  // ---------------------------------------------------------------------------------------------
  // Every run of the buffer is a run of a queue.

  datatype Op =
    | Append(bs: Str)      // WritePtr, CopyIn, WriteAdv
    | Put(c: byte)         // Write
    | Consume(n: nat)      // ReadPtr, ReadAdv
    | Squeeze              // Compact
    | Retract(n: nat)      // DeleteN
    | Clear                // Reset

  /** What each operation asks of its caller. */
  predicate Allowed(f: Fifo, op: Op)
    requires f.read <= |f.written| <= f.limit
  {
    match op
    case Append(bs) => |bs| <= f.Room()
    case Consume(n) => n <= |f.Unread()|
    case Retract(n) => n <= |f.Unread()|
    case _ => true
  }

  function Apply(f: Fifo, op: Op): (g: Fifo)
    requires f.read <= |f.written| <= f.limit && Allowed(f, op)
    ensures g.read <= |g.written| <= g.limit == f.limit
  {
    match op
    case Append(bs) => f.Fill(bs)
    case Put(c) => f.Push([c])
    case Consume(n) => f.Take(n)
    case Squeeze => f.Compact()
    case Retract(n) => f.Drop(n)
    case Clear => f.Reset()
  }

  /** An unbounded queue: all octets ever accepted and not retracted, and how many of them have left. */
  datatype Queue = Queue(stream: Str, left: nat)

  /** The queue's view of an operation. Compaction is invisible to it; `full` tells that a put was lost. */
  function Ideal(q: Queue, op: Op, full: bool): Queue {
    match op
    case Append(bs) => q.(stream := q.stream + bs)
    case Put(c) => if full then q else q.(stream := q.stream + [c])
    case Consume(n) => q.(left := q.left + n)
    case Squeeze => q
    case Retract(n) => if n <= |q.stream| then q.(stream := q.stream[..|q.stream| - n]) else q
    case Clear => q.(left := |q.stream|)
  }

  /** The buffer after `ops`, provided each was allowed when it came. */
  function Run(limit: nat, ops: seq<Op>): (f: Option<Fifo>)
    ensures f.Some? ==> f.value.read <= |f.value.written| <= f.value.limit == limit
  {
    if ops == [] then Some(Fifo([], 0, limit))
    else
      var before := Run(limit, ops[..|ops| - 1]);
      var op := ops[|ops| - 1];
      if before.Some? && Allowed(before.value, op) then Some(Apply(before.value, op)) else None
  }

  /** The queue after the same operations, losing exactly the puts that come when the buffer is full. */
  function IdealRun(limit: nat, ops: seq<Op>): Queue {
    if ops == [] then Queue([], 0)
    else
      var n := |ops| - 1;
      var before := Run(limit, ops[..n]);
      Ideal(IdealRun(limit, ops[..n]), ops[n], before.Some? && before.value.Room() == 0)
  }

  /** The pointers are ordered, the unread octets are the accepted ones minus the consumed ones, and the array
      holds a tail of the whole stream. */
  ghost predicate Refines(f: Fifo, q: Queue) {
    && f.Ok()
    && q.left <= |q.stream|
    && f.Unread() == q.stream[q.left..]
    && |f.written| <= |q.stream|
    && f.written == q.stream[|q.stream| - |f.written|..]
  }

  lemma RefinesAppend(f: Fifo, q: Queue, bs: Str)
    requires Refines(f, q) && |bs| <= f.Room()
    ensures Refines(f.Fill(bs), q.(stream := q.stream + bs))
  {
    var start := |q.stream| - |f.written|;
    assert (q.stream + bs)[start..] == q.stream[start..] + bs;
    assert (q.stream + bs)[q.left..] == q.stream[q.left..] + bs;
    assert f.Fill(bs).Unread() == f.Unread() + bs;
  }

  lemma RefinesRetract(f: Fifo, q: Queue, n: nat)
    requires Refines(f, q) && n <= |f.Unread()|
    ensures n <= |q.stream| && Refines(f.Drop(n), q.(stream := q.stream[..|q.stream| - n]))
  {
    var start := |q.stream| - |f.written|;
    var stream := q.stream[..|q.stream| - n];
    assert stream[start..] == q.stream[start..][..|f.written| - n];
    assert stream[q.left..] == q.stream[q.left..][..|f.Unread()| - n];
    assert f.Drop(n).Unread() == f.Unread()[..|f.Unread()| - n];
  }

  lemma RefinesPut(f: Fifo, q: Queue, c: byte)
    requires Refines(f, q)
    ensures Refines(f.Push([c]), if f.Room() == 0 then q else q.(stream := q.stream + [c]))
  {
    if f.Room() > 0 {
      assert [c][..1] == [c];
      RefinesAppend(f, q, [c]);
    } else {
      assert f.Fill([]) == f;
    }
  }

  lemma RefinesSqueeze(f: Fifo, q: Queue)
    requires Refines(f, q)
    ensures Refines(f.Compact(), q)
  {
  }

  lemma RefinesClear(f: Fifo, q: Queue)
    requires Refines(f, q)
    ensures Refines(f.Reset(), q.(left := |q.stream|))
  {
  }

  lemma RefinesConsume(f: Fifo, q: Queue, n: nat)
    requires Refines(f, q) && n <= |f.Unread()|
    ensures Refines(f.Take(n), q.(left := q.left + n))
  {
  }

  lemma RefinesStep(f: Fifo, q: Queue, op: Op)
    requires Refines(f, q) && Allowed(f, op)
    ensures Refines(Apply(f, op), Ideal(q, op, f.Room() == 0))
  {
    hide Refines;
    match op
    case Append(bs) => RefinesAppend(f, q, bs);
    case Put(c) => RefinesPut(f, q, c);
    case Consume(k) => RefinesConsume(f, q, k);
    case Squeeze => RefinesSqueeze(f, q);
    case Retract(k) => RefinesRetract(f, q, k);
    case Clear => RefinesClear(f, q);
  }

  /** Over every operation sequence meeting the preconditions the buffer is the queue. */
  lemma {:induction false} BufferIsFifo(limit: nat, ops: seq<Op>)
    requires Run(limit, ops).Some?
    ensures Refines(Run(limit, ops).value, IdealRun(limit, ops))
  {
    if ops != [] {
      var n := |ops| - 1;
      BufferIsFifo(limit, ops[..n]);
      RefinesStep(Run(limit, ops[..n]).value, IdealRun(limit, ops[..n]), ops[n]);
    }
  }

  /** Without room nothing is accepted, with room every put is: losses happen at a full buffer only. */
  lemma PutLostOnlyWhenFull(f: Fifo, c: byte)
    requires f.Ok()
    ensures f.Push([c]).Unread() == f.Unread() + [c] <==> f.Room() > 0
    ensures f.Push([c]) == f <==> f.Room() == 0
  {
    if f.Room() > 0 {
      assert [c][..1] == [c];
      assert |f.Push([c]).Unread()| == |f.Unread()| + 1;
    } else {
      assert |f.Push([c]).Unread()| == |f.Unread()|;
    }
  }

  /** Taking octets one by one or all at once is the same, the automatic compaction included. */
  lemma TakeTwice(f: Fifo, a: nat, b: nat)
    requires f.Ok() && a + b <= |f.Unread()|
    requires a < |f.Unread()| || b == 0
    ensures f.Take(a).Ok() && b <= |f.Take(a).Unread()| && f.Take(a).Take(b) == f.Take(a + b)
    ensures f.Take(a).Unread() == f.Unread()[a..]
  {
  }

  lemma FillTwice(f: Fifo, a: Str, b: Str)
    ensures f.Fill(a).Fill(b) == f.Fill(a + b)
    ensures f.read <= |f.written| ==> f.Fill(a).Unread() == f.Unread() + a
  {
    assert f.written + a + b == f.written + (a + b);
  }

  /** Pushing octet by octet or all at once is the same, losses included. */
  lemma PushTwice(f: Fifo, a: Str, b: Str)
    requires |f.written| <= f.limit
    ensures |f.Push(a).written| <= f.limit && f.Push(a).Push(b) == f.Push(a + b)
  {
    var ka := Min(|a|, f.Room());
    var kb := Min(|b|, f.Push(a).Room());
    assert (a + b)[..Min(|a + b|, f.Room())] == a[..ka] + b[..kb];
    assert f.written + a[..ka] + b[..kb] == f.written + (a[..ka] + b[..kb]);
  }
}
