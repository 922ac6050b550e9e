/** One direction of a BIO pair as a bounded byte queue: what bio_write, bio_read, the zero-copy calls and
    the shutdown do to it (crypto/bio/pair.c), without the ring buffer. */
module Pipes {

  import opened Bytes

  /** offset, size, the locks and request are the fields of bio_bio_st; queue is the live part of the ring.
      written and taken are everything ever accepted and handed out; the region is the piece of the buffer
      a zero-copy writer holds. */
  datatype Pipe = Pipe(size: nat, offset: nat, queue: seq<Byte>, closed: bool, readLock: bool, writeLock: bool,
                       request: nat, written: seq<Byte>, taken: seq<Byte>, regionOff: nat, regionLen: nat)
  {
    /** An offset that reaches the end of the buffer starts over. */
    function Wrap(i: nat): nat {
      if i >= size then i - size else i
    }

    /** The first byte that can be written, and how many fit before the end of the buffer or the live data. */
    function WriteOffset(): nat {
      Wrap(offset + |queue|)
    }

    function WriteRoom(): int {
      if offset + |queue| >= size then offset - WriteOffset() else size - WriteOffset()
    }

    /** How many bytes can be read without wrapping. */
    function ReadRun(): int {
      if |queue| > size - offset then size - offset else |queue|
    }

    ghost predicate Good() {
      && offset < size
      && |queue| <= size
      && written == taken + queue
      && request <= size && (request > 0 ==> queue == [])
      && (writeLock ==> regionOff == WriteOffset() && 0 < regionLen <= WriteRoom())
      && (readLock ==> queue != [])
    }
  }

  function Fresh(size: nat): Pipe {
    Pipe(size, 0, [], false, false, false, 0, [], [], 0, 0)
  }

  /** Appending accepted bytes. */
  function Append(p: Pipe, data: seq<Byte>): Pipe {
    p.(queue := p.queue + data, written := p.written + data)
  }

  /** Removing n bytes; the offset of an emptied ring is reset unless a zero-copy writer relies on it. */
  function Remove(p: Pipe, n: nat): Pipe
    requires n <= |p.queue|
  {
    p.(queue := p.queue[n..], taken := p.taken + p.queue[..n],
       offset := if n == |p.queue| && !p.writeLock then 0 else p.Wrap(p.offset + n))
  }

  datatype Event =
    | Write(data: seq<Byte>)
    | Read(count: nat)
    | GetRead
    | DoneRead(count: nat)
    | GetWrite
    | DoneWrite(bytes: seq<Byte>)
    | Shutdown

  /** The return value, and the bytes or the space handed to the caller. */
  datatype Outcome = Outcome(code: int, bytes: seq<Byte>, room: nat)

  function Result(p: Pipe, code: int): (Pipe, Outcome) {
    (p, Outcome(code, [], 0))
  }

  /** BIO_write with a non-null buffer. */
  function WriteStep(p: Pipe, data: seq<Byte>): (Pipe, Outcome) {
    if |data| == 0 || p.writeLock then Result(p, 0)
    else
      var q := p.(request := 0);
      if q.closed || |q.queue| >= q.size then Result(q, -1)
      else
        var num := if |data| > q.size - |q.queue| then q.size - |q.queue| else |data|;
        Result(Append(q, data[..num]), num)
  }

  /** BIO_read with a non-null buffer of `count` bytes. */
  function ReadStep(p: Pipe, count: nat): (Pipe, Outcome) {
    if count == 0 then Result(p, 0)
    else if p.readLock then Result(p.(request := 0), 0)
    else if |p.queue| == 0 then
      if p.closed then Result(p.(request := 0), 0)
      else Result(p.(request := if count <= p.size then count else p.size), -1)
    else
      var n := if |p.queue| < count then |p.queue| else count;
      (Remove(p.(request := 0), n), Outcome(n, p.queue[..n], 0))
  }

  function GetReadStep(p: Pipe): (Pipe, Outcome) {
    if p.readLock then Result(p, 0)
    else
      var n := if p.ReadRun() > 0 then p.ReadRun() else 0;
      (p.(request := 0, readLock := n > 0), Outcome(1, [], n))
  }

  function DoneReadStep(p: Pipe, n: nat): (Pipe, Outcome) {
    if !p.readLock || n > p.ReadRun() || n > |p.queue| then Result(p, 0)
    else (Remove(p, n).(readLock := false), Outcome(1, p.queue[..n], 0))
  }

  function GetWriteStep(p: Pipe): (Pipe, Outcome) {
    if p.writeLock then Result(p, 0)
    else
      var q := p.(request := 0);
      if q.closed then Result(q, 0)
      else
        var n := if q.WriteRoom() > 0 then q.WriteRoom() else 0;
        (if n > 0 then q.(writeLock := true, regionOff := q.WriteOffset(), regionLen := n) else q,
         Outcome(1, [], n))
  }

  /** bytes is what the caller has put at the start of the region it was handed. */
  function DoneWriteStep(p: Pipe, bytes: seq<Byte>): (Pipe, Outcome) {
    var q := p.(request := 0);
    if q.closed || !q.writeLock || |bytes| > q.WriteRoom() then Result(q, 0)
    else Result(Append(q, bytes).(writeLock := false), 1)
  }

  function Step(p: Pipe, e: Event): (Pipe, Outcome) {
    match e
    case Write(data) => WriteStep(p, data)
    case Read(count) => ReadStep(p, count)
    case GetRead => GetReadStep(p)
    case DoneRead(count) => DoneReadStep(p, count)
    case GetWrite => GetWriteStep(p)
    case DoneWrite(bytes) => DoneWriteStep(p, bytes)
    case Shutdown => Result(p.(closed := true), 1)
  }

  lemma AppendGood(p: Pipe, data: seq<Byte>)
    requires p.Good() && |p.queue| + |data| <= p.size && p.request == 0
    ensures Append(p, data).(writeLock := false).Good()
    ensures !p.writeLock ==> Append(p, data).Good()
  {
  }

  /** Reading never moves the write offset under a zero-copy writer, and its region stays free. */
  lemma RemoveGood(p: Pipe, n: nat)
    requires p.Good() && n <= |p.queue|
    ensures Remove(p, n).(readLock := false).Good()
    ensures p.writeLock ==> Remove(p, n).WriteOffset() == p.WriteOffset() && Remove(p, n).WriteRoom() >= p.WriteRoom()
  {
    assert p.taken + p.queue == (p.taken + p.queue[..n]) + p.queue[n..];
  }

  /** What every call keeps: the invariant, the history, the order of delivery, the closed end, and the region
      of a zero-copy writer for as long as it is locked. */
  ghost predicate Kept(p: Pipe, r: (Pipe, Outcome)) {
    && r.0.Good() && r.0.size == p.size
    && p.written <= r.0.written
    && r.0.taken == p.taken + r.1.bytes
    && (p.closed ==> r.0.closed && r.0.written == p.written)
    && (p.writeLock && r.0.writeLock ==>
          r.0.regionOff == p.regionOff && r.0.regionLen == p.regionLen && r.0.written == p.written)
  }

  lemma WriteKeeps(p: Pipe, data: seq<Byte>)
    requires p.Good()
    ensures Kept(p, WriteStep(p, data))
  {
    if !(|data| == 0 || p.writeLock || p.closed || |p.queue| >= p.size) {
      AppendGood(p.(request := 0), data[..if |data| > p.size - |p.queue| then p.size - |p.queue| else |data|]);
    }
  }

  lemma ReadKeeps(p: Pipe, count: nat)
    requires p.Good()
    ensures Kept(p, ReadStep(p, count)) && Kept(p, DoneReadStep(p, count))
  {
    if count > 0 && !p.readLock && |p.queue| > 0 {
      RemoveGood(p.(request := 0), if |p.queue| < count then |p.queue| else count);
    }
    if p.readLock && count <= p.ReadRun() {
      RemoveGood(p, count);
    }
  }

  lemma DoneWriteKeeps(p: Pipe, bytes: seq<Byte>)
    requires p.Good()
    ensures Kept(p, DoneWriteStep(p, bytes))
  {
    if !(p.closed || !p.writeLock || |bytes| > p.WriteRoom()) {
      AppendGood(p.(request := 0), bytes);
    }
  }

  lemma StepGood(p: Pipe, e: Event)
    requires p.Good()
    ensures Kept(p, Step(p, e))
  {
    match e
    case Write(data) => WriteKeeps(p, data);
    case Read(count) => ReadKeeps(p, count);
    case DoneRead(count) => ReadKeeps(p, count);
    case DoneWrite(bytes) => DoneWriteKeeps(p, bytes);
    case GetRead =>
    case GetWrite =>
    case Shutdown =>
  }

  // ---------------------------------------------------------------- whole runs of a pair

  /** The two directions of a pair; every call of either end is an event of one of them. */
  datatype Link = Link(ab: Pipe, ba: Pipe)

  function LinkStep(s: Link, forward: bool, e: Event): Link {
    if forward then s.(ab := Step(s.ab, e).0) else s.(ba := Step(s.ba, e).0)
  }

  function Run(s: Link, events: seq<(bool, Event)>): Link
    decreases |events|
  {
    if events == [] then s else Run(LinkStep(s, events[0].0, events[0].1), events[1..])
  }

  /** The bytes the run delivers in one direction, in order. */
  function Delivered(s: Link, events: seq<(bool, Event)>, forward: bool): seq<Byte>
    decreases |events|
  {
    if events == [] then []
    else
      var p := if events[0].0 then s.ab else s.ba;
      (if events[0].0 == forward then Step(p, events[0].1).1.bytes else []) +
      Delivered(LinkStep(s, events[0].0, events[0].1), events[1..], forward)
  }

  function Accepted(s: Link, events: seq<(bool, Event)>, forward: bool): seq<Byte> {
    var p := if forward then Run(s, events).ab else Run(s, events).ba;
    p.written
  }

  /** Under every interleaving of calls on a fresh pair each direction delivers, in order and without loss or
      duplication, a prefix of what it accepted, and never holds more than its buffer. */
  lemma {:induction false} RunDelivers(s: Link, events: seq<(bool, Event)>)
    requires s.ab.Good() && s.ba.Good()
    ensures var t := Run(s, events);
            t.ab.Good() && t.ba.Good() && t.ab.size == s.ab.size && t.ba.size == s.ba.size &&
            t.ab.taken == s.ab.taken + Delivered(s, events, true) &&
            t.ba.taken == s.ba.taken + Delivered(s, events, false)
    decreases |events|
  {
    hide Step, LinkStep;
    if events != [] {
      var forward, e := events[0].0, events[0].1;
      var p := if forward then s.ab else s.ba;
      StepGood(p, e);
      var s' := LinkStep(s, forward, e);
      assert s' == if forward then s.(ab := Step(s.ab, e).0) else s.(ba := Step(s.ba, e).0) by {
        OneStep(s, forward, e);
      }
      RunDelivers(s', events[1..]);
      var out := Step(p, e).1.bytes;
      var d, d' := Delivered(s', events[1..], true), Delivered(s', events[1..], false);
      if forward {
        assert s.ab.taken + out + d == s.ab.taken + (out + d) && [] + d' == d';
      } else {
        assert s.ba.taken + out + d' == s.ba.taken + (out + d') && [] + d == d;
      }
    }
  }

  lemma OneStep(s: Link, forward: bool, e: Event)
    ensures LinkStep(s, forward, e) == if forward then s.(ab := Step(s.ab, e).0) else s.(ba := Step(s.ba, e).0)
  {
  }

  lemma FreshPairDelivers(size1: nat, size2: nat, events: seq<(bool, Event)>)
    requires size1 > 0 && size2 > 0
    ensures var s := Link(Fresh(size1), Fresh(size2));
            Delivered(s, events, true) <= Accepted(s, events, true) &&
            Delivered(s, events, false) <= Accepted(s, events, false) &&
            |Accepted(s, events, true)| - |Delivered(s, events, true)| <= size1 &&
            |Accepted(s, events, false)| - |Delivered(s, events, false)| <= size2
  {
    var s := Link(Fresh(size1), Fresh(size2));
    RunDelivers(s, events);
    assert [] + Delivered(s, events, true) == Delivered(s, events, true);
    assert [] + Delivered(s, events, false) == Delivered(s, events, false);
  }

  /** A reader that asks for bytes is told 0 exactly at the end of a closed, drained stream (or while it
      holds a zero-copy region itself), and -1 exactly when it should retry. */
  lemma EndOfStream(p: Pipe, count: nat)
    requires p.Good() && count > 0 && !p.readLock
    ensures ReadStep(p, count).1.code == 0 <==> p.closed && p.taken == p.written
    ensures ReadStep(p, count).1.code == -1 <==> !p.closed && p.taken == p.written
  {
  }

  /** The comment on bio_bio_st promises offset 0 whenever len is 0; a zero-copy writer breaks it. */
  lemma EmptyRingWithOffset()
    ensures var events := [(true, Write([1, 2])), (true, GetWrite), (true, Read(2)), (true, DoneWrite([]))];
            var p := Run(Link(Fresh(4), Fresh(4)), events).ab; |p.queue| == 0 && p.offset == 2
  {
    var events := [(true, Write([1, 2])), (true, GetWrite), (true, Read(2)), (true, DoneWrite([]))];
    var s0 := Link(Fresh(4), Fresh(4));
    var s1 := LinkStep(s0, true, Write([1, 2]));
    assert s1.ab == Fresh(4).(queue := [1, 2], written := [1, 2]) by {
      assert [1, 2][..2] == [1, 2];
    }
    var s2 := LinkStep(s1, true, GetWrite);
    assert s2.ab.writeLock && s2.ab.queue == [1, 2] && s2.ab.offset == 0;
    var s3 := LinkStep(s2, true, Read(2));
    assert s3.ab.offset == 2 && s3.ab.queue == [] && s3.ab.WriteRoom() == 2;
    var s4 := LinkStep(s3, true, DoneWrite([]));
    assert events[1..] == [(true, GetWrite), (true, Read(2)), (true, DoneWrite([]))];
    assert events[1..][1..] == [(true, Read(2)), (true, DoneWrite([]))];
    assert events[1..][1..][1..] == [(true, DoneWrite([]))];
    assert Run(s3, [(true, DoneWrite([]))]) == s4;
  }
}
