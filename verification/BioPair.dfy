/** The BIO pair: two ring buffers that refine the two queues of module Pipes (crypto/bio/pair.c, with the
    byte counters of crypto/bio/bio.c). */
module BioPair {
  import opened Bytes
  import opened Pipes

  /** The live part of a ring buffer. */
  ghost function Ring(buf: seq<Byte>, offset: nat, len: nat): seq<Byte>
    requires offset < |buf| && len <= |buf|
  {
    if offset + len <= |buf| then buf[offset..offset + len]
    else buf[offset..] + buf[..offset + len - |buf|]
  }

  ghost function Wrapped(i: nat, size: nat): nat {
    if i >= size then i - size else i
  }

  /** Copying a chunk behind the live part appends it. */
  lemma RingAppend(a: seq<Byte>, b: seq<Byte>, offset: nat, len: nat, chunk: seq<Byte>)
    requires |a| == |b| && offset < |a| && len + |chunk| <= |a|
    requires var w := Wrapped(offset + len, |a|);
             w + |chunk| <= |a| && b == a[..w] + chunk + a[w + |chunk|..]
    ensures Ring(b, offset, len + |chunk|) == Ring(a, offset, len) + chunk
  {
    var w := Wrapped(offset + len, |a|);
    if offset + len < |a| {
      assert b[offset..offset + len] == a[offset..offset + len];
    } else {
      assert b[offset..] == a[offset..];
      assert b[..w + |chunk|] == a[..w] + chunk;
    }
  }

  lemma RingAt(a: seq<Byte>, offset: nat, len: nat)
    requires offset < |a| && len <= |a|
    ensures |Ring(a, offset, len)| == len
    ensures forall k :: 0 <= k < len ==> Ring(a, offset, len)[k] == a[Wrapped(offset + k, |a|)]
  {
  }

  /** A chunk at the offset is the front of the queue; the rest stays queued behind it. */
  lemma RingDrop(a: seq<Byte>, offset: nat, len: nat, chunk: nat)
    requires offset < |a| && chunk <= len <= |a| && offset + chunk <= |a|
    ensures |Ring(a, offset, len)| == len
    ensures a[offset..offset + chunk] == Ring(a, offset, len)[..chunk]
    ensures Ring(a, Wrapped(offset + chunk, |a|), len - chunk) == Ring(a, offset, len)[chunk..]
    ensures chunk == len ==> Ring(a, 0, 0) == Ring(a, offset, len)[chunk..]
  {
    hide Ring;
    var w := Wrapped(offset + chunk, |a|);
    RingAt(a, offset, len);
    RingAt(a, w, len - chunk);
    RingAt(a, 0, 0);
    var all, rest := Ring(a, offset, len), Ring(a, w, len - chunk);
    forall k | 0 <= k < len - chunk ensures rest[k] == all[chunk..][k] {
      assert Wrapped(w + k, |a|) == Wrapped(offset + (chunk + k), |a|);
      assert rest[k] == a[Wrapped(w + k, |a|)] && all[chunk + k] == a[Wrapped(offset + (chunk + k), |a|)];
    }
    forall k | 0 <= k < chunk ensures a[offset..offset + chunk][k] == all[..chunk][k] {
      assert all[k] == a[Wrapped(offset + k, |a|)];
    }
  }

  /** Writing into free space leaves the live part alone. */
  lemma RingFree(a: seq<Byte>, offset: nat, len: nat, i: nat, x: Byte)
    requires offset < |a| && len <= |a| && i < |a|
    requires var w := Wrapped(offset + len, |a|);
             w <= i < w + (if offset + len >= |a| then offset - w else |a| - w)
    ensures Ring(a[i := x], offset, len) == Ring(a, offset, len)
  {
  }

  /** What lies behind the live part joins it when the length grows. */
  lemma RingExtend(a: seq<Byte>, offset: nat, len: nat, count: nat)
    requires offset < |a| && len + count <= |a| && Wrapped(offset + len, |a|) + count <= |a|
    ensures Ring(a, offset, len + count) ==
            Ring(a, offset, len) + a[Wrapped(offset + len, |a|)..Wrapped(offset + len, |a|) + count]
  {
    var w := Wrapped(offset + len, |a|);
    assert a == a[..w] + a[w..w + count] + a[w + count..];
    RingAppend(a, a, offset, len, a[w..w + count]);
  }

  lemma SplitTwice(whole: seq<Byte>, n: nat, m: nat)
    requires n + m <= |whole|
    ensures whole[n..][..m] == whole[n..n + m] && whole[n..][m..] == whole[n + m..]
    ensures whole[..n] + whole[n..][..m] == whole[..n + m]
  {
  }

  /** struct bio_bio_st: what one end writes and its peer reads. */
  class Half {
    var peer: Bio?
    var closed: bool
    var len: nat
    var offset: nat
    var buf: array<Byte>
    var readLock: bool
    var writeLock: bool
    var request: nat
    ghost var written: seq<Byte>
    ghost var taken: seq<Byte>
    ghost var regionOff: nat
    ghost var regionLen: nat

    ghost predicate InRange()
      reads this, buf
    {
      offset < buf.Length && len <= buf.Length
    }

    /** The queue this half implements. */
    ghost function Queue(): (p: Pipe)
      requires InRange()
      reads this, buf
      ensures |p.queue| == len
    {
      Pipe(buf.Length, offset, Ring(buf[..], offset, len), closed, readLock, writeLock, request,
           written, taken, regionOff, regionLen)
    }

    ghost predicate Valid()
      reads this, buf
    {
      InRange() && Queue().Good()
    }

    /** bio_new and the buffer of bio_make_pair; a length of 0 asks for the default size. */
    constructor (size: nat)
      ensures fresh(buf) && Idle()
      ensures Queue() == Fresh(if size > 0 then size else 17 * 1024)
    {
      peer, closed, len, offset, readLock, writeLock, request := null, false, 0, 0, false, false, 0;
      written, taken, regionOff, regionLen := [], [], 0, 0;
      buf := new Byte[if size > 0 then size else 17 * 1024];
    }

    /** No peer, or a peer gone: nothing is queued. */
    ghost predicate Idle()
      reads this, buf
    {
      InRange() && peer == null && len == 0 && offset == 0
    }

    /** What bio_make_pair sets; the history starts anew. */
    method Attach(other: Bio)
      requires Idle()
      modifies this
      ensures buf == old(buf) && peer == other && InRange() && Queue() == Fresh(buf.Length)
    {
      peer, closed, request, readLock, writeLock := other, false, 0, false, false;
      written, taken, regionOff, regionLen := [], [], 0, 0;
    }

    /** What bio_destroy_pair sets. */
    method Detach()
      requires InRange()
      modifies this`peer, this`len, this`offset
      ensures Idle()
    {
      peer := null;
      len, offset := 0, 0;
    }

    /** The copy loop of bio_write: one or two chunks. */
    method CopyIn(data: seq<Byte>)
      requires InRange() && len + |data| <= buf.Length
      modifies this`len, buf
      ensures InRange() && len == old(len) + |data|
      ensures Ring(buf[..], offset, len) == old(Ring(buf[..], offset, len)) + data
    {
      hide Ring;
      var rest, done := |data|, 0;
      ghost var before := Ring(buf[..], offset, len);
      assert data[..0] == [] && before + [] == before;
      while rest > 0
        invariant 0 <= rest && done + rest == |data| && len == old(len) + done && len + rest <= buf.Length
        invariant Ring(buf[..], offset, len) == before + data[..done]
      {
        var writeOffset := offset + len;
        if writeOffset >= buf.Length {
          writeOffset := writeOffset - buf.Length;
        }
        var chunk := if writeOffset + rest <= buf.Length then rest else buf.Length - writeOffset;
        CopyChunk(writeOffset, data[done..done + chunk]);
        assert before + data[..done] + data[done..done + chunk] == before + data[..done + chunk];
        rest := rest - chunk;
        done := done + chunk;
      }
      assert data[..|data|] == data;
    }

    /** memcpy of one chunk behind the live part. */
    method CopyChunk(writeOffset: nat, piece: seq<Byte>)
      requires InRange() && len + |piece| <= buf.Length
      requires writeOffset == Wrapped(offset + len, buf.Length) && writeOffset + |piece| <= buf.Length
      modifies this`len, buf
      ensures len == old(len) + |piece|
      ensures Ring(buf[..], offset, len) == old(Ring(buf[..], offset, len)) + piece
    {
      hide Ring;
      ghost var a := buf[..];
      forall k | 0 <= k < |piece| {
        buf[writeOffset + k] := piece[k];
      }
      assert buf[..] == a[..writeOffset] + piece + a[writeOffset + |piece|..];
      RingAppend(a, buf[..], offset, len, piece);
      len := len + |piece|;
    }

    /** The copy loop of bio_read: one or two chunks, the offset reset when the ring runs empty unless a
        zero-copy writer relies on it. */
    method CopyOut(size: nat) returns (bytes: seq<Byte>)
      requires InRange() && 0 < size <= len
      modifies this`len, this`offset
      ensures InRange() && len == old(len) - size
      ensures offset == if len == 0 && !writeLock then 0 else Wrapped(old(offset) + size, buf.Length)
      ensures |old(Ring(buf[..], offset, len))| == old(len)
      ensures bytes == old(Ring(buf[..], offset, len))[..size]
      ensures Ring(buf[..], offset, len) == old(Ring(buf[..], offset, len))[size..]
    {
      hide Ring;
      ghost var queue, before := buf[..], Ring(buf[..], offset, len);
      RingDrop(queue, offset, len, 0);
      var rest := size;
      bytes := [];
      while rest > 0
        invariant 0 <= rest <= size && len == old(len) - (size - rest) && offset < buf.Length
        invariant buf[..] == queue && |bytes| == size - rest && |before| == old(len)
        invariant offset == if len == 0 && !writeLock then 0 else Wrapped(old(offset) + |bytes|, buf.Length)
        invariant bytes == before[..|bytes|] && Ring(queue, offset, len) == before[|bytes|..]
      {
        var chunk := if offset + rest <= buf.Length then rest else buf.Length - offset;
        RingDrop(queue, offset, len, chunk);
        SplitTwice(before, |bytes|, chunk);
        bytes := bytes + buf[offset..offset + chunk];
        len := len - chunk;
        if len != 0 || writeLock {
          offset := offset + chunk;
          if offset == buf.Length {
            offset := 0;
          }
        } else {
          offset := 0;
        }
        rest := rest - chunk;
      }
    }

    /** bio_write once the buffer is known to be non-null. */
    method Write(data: seq<Byte>) returns (r: int)
      requires Valid()
      modifies this`len, this`request, this`written, buf
      ensures Valid() && (Queue(), Outcome(r, [], 0)) == WriteStep(old(Queue()), data)
      ensures |written| == |old(written)| + (if r > 0 then r else 0)
    {
      hide Ring;
      ghost var p := Queue();
      WriteKeeps(p, data);
      if |data| == 0 || writeLock {
        return 0;
      }
      request := 0;
      if closed {
        return -1;
      }
      if len == buf.Length {
        return -1;
      }
      var num := |data|;
      if num > buf.Length - len {
        num := buf.Length - len;
      }
      CopyIn(data[..num]);
      written := written + data[..num];
      r := num;
    }

    /** bio_read of at most size_ bytes from this half. */
    method Read(count: nat) returns (r: int, bytes: seq<Byte>)
      requires Valid()
      modifies this`len, this`offset, this`request, this`taken
      ensures Valid() && (Queue(), Outcome(r, bytes, 0)) == ReadStep(old(Queue()), count)
      ensures |taken| == |old(taken)| + (if r > 0 then r else 0)
    {
      hide Ring;
      ghost var p := Queue();
      ReadKeeps(p, count);
      bytes := [];
      if count == 0 {
        return 0, [];
      }
      request := 0;
      if readLock {
        return 0, [];
      }
      if len == 0 {
        if closed {
          return 0, [];
        }
        request := if count <= buf.Length then count else buf.Length;
        return -1, [];
      }
      r := if len < count then len else count;
      bytes := Take(r);
    }

    method Take(size: nat) returns (bytes: seq<Byte>)
      requires InRange() && 0 < size <= len
      modifies this`len, this`offset, this`taken
      ensures InRange() && bytes == old(Queue().queue[..size]) && Queue() == Remove(old(Queue()), size)
      ensures |bytes| == size && taken == old(taken) + bytes
    {
      hide Ring;
      bytes := CopyOut(size);
      taken := taken + bytes;
    }

    /** bio_zero_copy_get_read_buf: how much of the queue lies in one piece at the offset. */
    function ReadRun(): (n: nat)
      requires InRange()
      reads this, buf
      ensures n == Queue().ReadRun() && n <= len && offset + n <= buf.Length
    {
      if len > buf.Length - offset then buf.Length - offset else len
    }

    /** bio_zero_copy_get_write_buf. */
    function WriteOffset(): (w: nat)
      requires InRange()
      reads this, buf
      ensures w == Queue().WriteOffset() && w < buf.Length
    {
      if offset + len >= buf.Length then offset + len - buf.Length else offset + len
    }

    function WriteRoom(): (n: nat)
      requires InRange()
      reads this, buf
      ensures n == Queue().WriteRoom() && WriteOffset() + n <= buf.Length && len + n <= buf.Length
    {
      if offset + len >= buf.Length then offset - WriteOffset() else buf.Length - WriteOffset()
    }

    /** BIO_zero_copy_get_read_buf: what the reader sees is the front of the queue. */
    method GetRead() returns (r: int, start: nat, n: nat)
      requires Valid()
      modifies this`request, this`readLock
      ensures Valid() && (Queue(), Outcome(r, [], n)) == GetReadStep(old(Queue()))
      ensures start + n <= buf.Length && n <= len && buf[start..start + n] == Queue().queue[..n]
    {
      hide Ring;
      start, n := offset, 0;
      StepGood(Queue(), Event.GetRead);
      if readLock {
        return 0, offset, 0;
      }
      request := 0;
      n := ReadRun();
      assert buf[offset..offset + n] == Queue().queue[..n] by {
        RingDrop(buf[..], offset, len, n);
      }
      readLock := n > 0;
      r := 1;
    }

    /** BIO_zero_copy_get_read_buf_done. */
    method DoneRead(count: nat) returns (r: int, ghost bytes: seq<Byte>)
      requires Valid()
      modifies this`len, this`offset, this`readLock, this`taken
      ensures Valid() && (Queue(), Outcome(r, bytes, 0)) == DoneReadStep(old(Queue()), count)
      ensures |taken| == |old(taken)| + (if r > 0 then count else 0)
    {
      hide Ring;
      ReadKeeps(Queue(), count);
      bytes := [];
      if !readLock {
        return 0, [];
      }
      var available := ReadRun();
      if count > available {
        return 0, [];
      }
      bytes := Consume(count);
      r := 1;
    }

    /** The read offset moves on. */
    method Consume(count: nat) returns (ghost bytes: seq<Byte>)
      requires InRange() && count <= ReadRun()
      modifies this`len, this`offset, this`readLock, this`taken
      ensures InRange() && Queue() == Remove(old(Queue()), count).(readLock := false)
      ensures bytes == old(Queue().queue[..count])
    {
      hide Ring;
      RingDrop(buf[..], offset, len, count);
      bytes := Queue().queue[..count];
      len := len - count;
      if offset + count == buf.Length || (!writeLock && len == 0) {
        offset := 0;
      } else {
        offset := offset + count;
      }
      readLock := false;
      taken := taken + bytes;
    }

    /** BIO_zero_copy_get_write_buf. */
    method GetWrite() returns (r: int, start: nat, n: nat)
      requires Valid()
      modifies this`request, this`writeLock, this`regionOff, this`regionLen
      ensures Valid() && (Queue(), Outcome(r, [], n)) == GetWriteStep(old(Queue()))
      ensures start == WriteOffset() && n <= WriteRoom()
    {
      hide Ring;
      start, n := WriteOffset(), 0;
      StepGood(Queue(), Event.GetWrite);
      if writeLock {
        return 0, start, 0;
      }
      request := 0;
      if closed {
        return 0, start, 0;
      }
      n := WriteRoom();
      if n > 0 {
        writeLock, regionOff, regionLen := true, start, n;
      }
      r := 1;
    }

    /** The holder of the write region fills it in; the queue does not notice. */
    method Store(i: nat, x: Byte)
      requires Valid() && writeLock && regionOff <= i < regionOff + regionLen
      modifies buf
      ensures Valid() && Queue() == old(Queue()) && buf[i] == x
    {
      RingFree(buf[..], offset, len, i, x);
      ghost var a := buf[..];
      buf[i] := x;
      assert buf[..] == a[i := x];
    }

    /** The write offset moves past the bytes of the region. */
    method Commit(count: nat, ghost bytes: seq<Byte>)
      requires InRange() && |bytes| == count <= WriteRoom()
      requires bytes == buf[..][WriteOffset()..WriteOffset() + |bytes|]
      modifies this`len, this`writeLock, this`written
      ensures InRange() && Queue() == Append(old(Queue()), bytes).(writeLock := false)
    {
      hide Ring;
      RingExtend(buf[..], offset, len, |bytes|);
      len := len + count;
      writeLock := false;
      written := written + bytes;
    }

    /** BIO_zero_copy_get_write_buf_done: the bytes found in the region join the queue. */
    method DoneWrite(count: nat) returns (r: int, ghost bytes: seq<Byte>)
      requires Valid()
      modifies this`len, this`request, this`writeLock, this`written
      ensures Valid() && |bytes| == count
      ensures (Queue(), Outcome(r, [], 0)) == DoneWriteStep(old(Queue()), bytes)
      ensures count <= old(WriteRoom()) ==> bytes == buf[..][old(WriteOffset())..old(WriteOffset()) + count]
      ensures |written| == |old(written)| + (if r > 0 then count else 0)
    {
      hide Ring;
      var start := WriteOffset();
      bytes := if start + count <= buf.Length then buf[..][start..start + count] else seq(count, i => 0);
      DoneWriteKeeps(Queue(), bytes);
      request := 0;
      if closed {
        return 0, bytes;
      }
      if !writeLock {
        return 0, bytes;
      }
      if count > WriteRoom() {
        return 0, bytes;
      }
      Commit(count, bytes);
      r := 1;
    }
  }

  /** A BIO of the pair kind: its own half and the byte counters. */
  class Bio {
    var init: bool
    var numRead: nat
    var numWrite: nat
    const ptr: Half
    ghost var readBefore: nat
    ghost var wroteBefore: nat

    constructor (size: nat)
      ensures fresh(ptr) && fresh(ptr.buf) && !init && numRead == 0 && numWrite == 0 && ptr.Idle()
      ensures ptr.Queue() == Fresh(if size > 0 then size else 17 * 1024)
    {
      init, numRead, numWrite, readBefore, wroteBefore := false, 0, 0, 0, 0;
      ptr := new Half(size);
    }

    /** Both ends of a live pair. Since the pair was made, what one end has counted as written and the other has
        not yet counted as read is exactly what the ring holds. */
    ghost predicate Paired(other: Bio)
      reads this, other, ptr, other.ptr, ptr.buf, other.ptr.buf
    {
      && this != other && ptr != other.ptr && ptr.buf != other.ptr.buf
      && ptr.peer == other && other.ptr.peer == this && init && other.init
      && ptr.Valid() && other.ptr.Valid()
      && numWrite == wroteBefore + |ptr.written| && other.numRead == other.readBefore + |ptr.taken|
      && other.numWrite == other.wroteBefore + |other.ptr.written| && numRead == readBefore + |other.ptr.taken|
    }

    /** BIO_write through bio_io. */
    method Write(ghost other: Bio, data: seq<Byte>) returns (r: int)
      requires init ==> Paired(other)
      modifies this`numWrite, ptr`len, ptr`request, ptr`written, ptr.buf
      ensures !init ==> r == -2 && numWrite == old(numWrite) && (ptr.InRange() && old(ptr.InRange()) ==> ptr.Queue() == old(ptr.Queue()))
      ensures init ==> Paired(other) && other.ptr.Queue() == old(other.ptr.Queue())
      ensures init ==> (ptr.Queue(), Outcome(r, [], 0)) == WriteStep(old(ptr.Queue()), data)
    {
      hide Ring;
      if !init {
        return -2;
      }
      r := 0;
      if |data| > 0 {
        r := ptr.Write(data);
      }
      if r > 0 {
        numWrite := numWrite + r;
      }
    }

    /** BIO_read through bio_io: it reads the half of the peer. */
    method Read(ghost other: Bio, count: nat) returns (r: int, bytes: seq<Byte>)
      requires init ==> Paired(other)
      modifies this`numRead, other.ptr`len, other.ptr`offset, other.ptr`request, other.ptr`taken
      ensures !init ==> r == -2 && bytes == [] && numRead == old(numRead)
      ensures init ==> Paired(other) && ptr.Queue() == old(ptr.Queue())
      ensures init ==> (other.ptr.Queue(), Outcome(r, bytes, 0)) == ReadStep(old(other.ptr.Queue()), count)
    {
      hide Ring;
      if !init {
        return -2, [];
      }
      r, bytes := 0, [];
      if count > 0 {
        r, bytes := ptr.peer.ptr.Read(count);
      }
      if r > 0 {
        numRead := numRead + r;
      }
    }

    method GetRead(ghost other: Bio) returns (r: int, start: nat, n: nat)
      requires init ==> Paired(other)
      modifies other.ptr`request, other.ptr`readLock
      ensures init ==> Paired(other) && ptr.Queue() == old(ptr.Queue())
      ensures init ==> (other.ptr.Queue(), Outcome(r, [], n)) == GetReadStep(old(other.ptr.Queue()))
      ensures !init ==> r == 0 && n == 0
    {
      hide Ring;
      if !init {
        return 0, 0, 0;
      }
      r, start, n := ptr.peer.ptr.GetRead();
    }

    method DoneRead(ghost other: Bio, count: nat) returns (r: int)
      requires init ==> Paired(other)
      modifies this`numRead, other.ptr`len, other.ptr`offset, other.ptr`readLock, other.ptr`taken
      ensures init ==> Paired(other) && ptr.Queue() == old(ptr.Queue())
      ensures init ==> other.ptr.Queue() == DoneReadStep(old(other.ptr.Queue()), count).0
      ensures init ==> r == DoneReadStep(old(other.ptr.Queue()), count).1.code
      ensures !init ==> r == 0 && numRead == old(numRead)
    {
      hide Ring;
      if !init {
        return 0;
      }
      ghost var bytes;
      r, bytes := ptr.peer.ptr.DoneRead(count);
      if r > 0 {
        numRead := numRead + count;
      }
    }

    method GetWrite(ghost other: Bio) returns (r: int, start: nat, n: nat)
      requires init ==> Paired(other)
      modifies ptr`request, ptr`writeLock, ptr`regionOff, ptr`regionLen
      ensures init ==> Paired(other) && other.ptr.Queue() == old(other.ptr.Queue())
      ensures init ==> (ptr.Queue(), Outcome(r, [], n)) == GetWriteStep(old(ptr.Queue()))
      ensures !init ==> r == 0 && n == 0
    {
      hide Ring;
      if !init {
        return 0, 0, 0;
      }
      r, start, n := ptr.GetWrite();
    }

    method DoneWrite(ghost other: Bio, count: nat) returns (r: int, ghost bytes: seq<Byte>)
      requires init ==> Paired(other)
      modifies this`numWrite, ptr`len, ptr`request, ptr`writeLock, ptr`written
      ensures init ==> Paired(other) && other.ptr.Queue() == old(other.ptr.Queue()) && |bytes| == count
      ensures init ==> (ptr.Queue(), Outcome(r, [], 0)) == DoneWriteStep(old(ptr.Queue()), bytes)
      ensures !init ==> r == 0 && numWrite == old(numWrite)
    {
      hide Ring;
      if !init {
        return 0, [];
      }
      r, bytes := ptr.DoneWrite(count);
      if r > 0 {
        numWrite := numWrite + count;
      }
    }

    /** BIO_C_SHUTDOWN_WR, which does not ask for a peer. */
    method ShutdownWr(ghost other: Bio) returns (r: int)
      requires init ==> Paired(other)
      modifies ptr`closed
      ensures r == 1 && ptr.closed
      ensures init ==> Paired(other) && other.ptr.Queue() == old(other.ptr.Queue())
      ensures init ==> ptr.Queue() == Step(old(ptr.Queue()), Shutdown).0
    {
      hide Ring;
      if init {
        StepGood(ptr.Queue(), Shutdown);
      }
      ptr.closed := true;
      r := 1;
    }

    /** bio_make_pair, the buffers being there already: it pairs two BIOs without a peer, fresh ones or the ends
        of earlier pairs, whose counters go on. */
    method MakePair(other: Bio) returns (r: int)
      requires this != other && ptr != other.ptr && ptr.buf != other.ptr.buf
      requires ptr.peer == null && other.ptr.peer == null ==> ptr.Idle() && other.ptr.Idle()
      modifies this`init, this`wroteBefore, this`readBefore, other`init, other`wroteBefore, other`readBefore
      modifies ptr, other.ptr
      ensures r == if old(ptr.peer != null || other.ptr.peer != null) then 0 else 1
      ensures r == 0 ==> unchanged(this, other, ptr, other.ptr)
      ensures r == 1 ==> Paired(other) && ptr.buf == old(ptr.buf) && other.ptr.buf == old(other.ptr.buf)
      ensures r == 1 ==> ptr.Queue() == Fresh(ptr.buf.Length) && other.ptr.Queue() == Fresh(other.ptr.buf.Length)
      ensures r == 1 ==> wroteBefore == numWrite && readBefore == numRead
      ensures r == 1 ==> other.wroteBefore == other.numWrite && other.readBefore == other.numRead
    {
      hide Ring;
      if ptr.peer != null || other.ptr.peer != null {
        return 0;
      }
      ptr.Attach(other);
      other.ptr.Attach(this);
      wroteBefore, readBefore := numWrite, numRead;
      other.wroteBefore, other.readBefore := other.numWrite, other.numRead;
      init := true;
      other.init := true;
      r := 1;
    }

    /** bio_destroy_pair: both ends are cut off and both rings emptied; nothing happens without a peer. */
    method DestroyPair(ghost other: Bio)
      requires ptr.peer != null ==> Paired(other)
      modifies this`init, other`init, ptr`peer, ptr`len, ptr`offset, other.ptr`peer, other.ptr`len, other.ptr`offset
      ensures old(ptr.peer) == null ==> unchanged(this, other, ptr, other.ptr)
      ensures old(ptr.peer) != null ==> !init && !other.init && ptr.Idle() && other.ptr.Idle()
    {
      var peer := ptr.peer;
      if peer == null {
        return;
      }
      peer.ptr.Detach();
      peer.init := false;
      ptr.Detach();
      init := false;
    }
  }

  /** The conservation law: since the pair was made, the writer's count less the reader's count is what is
      queued. */
  lemma Conservation(a: Bio, b: Bio)
    requires a.Paired(b)
    ensures a.numWrite - a.wroteBefore == b.numRead - b.readBefore + a.ptr.len
    ensures b.numWrite - b.wroteBefore == a.numRead - a.readBefore + b.ptr.len
    ensures a.ptr.written == a.ptr.taken + a.ptr.Queue().queue
  {
  }

  /** BIO_new_bio_pair. */
  method NewBioPair(size1: nat, size2: nat) returns (a: Bio, b: Bio)
    ensures fresh(a) && fresh(b) && a.Paired(b) && b.Paired(a)
    ensures a.wroteBefore == a.readBefore == b.wroteBefore == b.readBefore == 0
    ensures a.ptr.Queue() == Fresh(if size1 > 0 then size1 else 17 * 1024)
    ensures b.ptr.Queue() == Fresh(if size2 > 0 then size2 else 17 * 1024)
  {
    a := new Bio(size1);
    b := new Bio(size2);
    var r := a.MakePair(b);
  }
}
