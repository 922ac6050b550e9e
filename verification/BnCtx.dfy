/** BN_CTX: a pool of bignums in linked blocks of 16 and a stack of frames (crypto/bn/ctx.c). Whether an
    allocation succeeds is a parameter of the call that needs one. */
module BnCtx {

  const POOL_SIZE := 16
  const START_FRAMES := 32

  // ---------------------------------------------------------------- the plain stack it should behave as

  /** used bignums are live; each frame remembers how many were live when it was opened. */
  datatype Control = Control(used: nat, frames: seq<nat>, errStack: nat, tooMany: bool)
  {
    ghost predicate Blocked() {
      errStack > 0 || tooMany
    }
  }

  function StartStep(s: Control, pushed: bool): Control {
    if s.errStack > 0 || s.tooMany || !pushed then s.(errStack := s.errStack + 1)
    else s.(frames := s.frames + [s.used])
  }

  function GetStep(s: Control, found: bool): Control {
    if s.errStack > 0 || s.tooMany then s
    else if found then s.(used := s.used + 1)
    else s.(tooMany := true)
  }

  function EndStep(s: Control): Control
    requires s.errStack > 0 || |s.frames| > 0
  {
    if s.errStack > 0 then s.(errStack := s.errStack - 1)
    else Control(s.frames[|s.frames| - 1], s.frames[..|s.frames| - 1], 0, false)
  }

  /** A well-bracketed use: gets and whole start/end frames, each allocation succeeding or failing. */
  datatype Trace =
    | Done
    | Get(found: bool, rest: Trace)
    | Frame(pushed: bool, body: Trace, rest: Trace)

  /** Running a trace never pops a frame it did not push, and never releases what was live before. */
  ghost function Run(s: Control, t: Trace): (r: Control)
    ensures r.frames == s.frames && r.errStack == s.errStack && r.used >= s.used
    ensures s.Blocked() ==> r == s
    decreases t
  {
    match t
    case Done => s
    case Get(found, rest) => Run(GetStep(s, found), rest)
    case Frame(pushed, body, rest) => Run(EndStep(Run(StartStep(s, pushed), body)), rest)
  }

  /** The positions of the bignums handed out while the trace runs. */
  ghost function Handed(s: Control, t: Trace): set<nat>
    decreases t
  {
    match t
    case Done => {}
    case Get(found, rest) =>
      (if !s.Blocked() && found then {s.used} else {}) + Handed(GetStep(s, found), rest)
    case Frame(pushed, body, rest) =>
      Handed(StartStep(s, pushed), body) + Handed(EndStep(Run(StartStep(s, pushed), body)), rest)
  }

  /** However allocations fail inside, a frame restores everything: the live count, the frames, the overflow
      depth and the block on gets. */
  lemma {:induction false} FrameRestores(s: Control, pushed: bool, body: Trace)
    ensures Run(s, Frame(pushed, body, Done)) == s
  {
    var inner := StartStep(s, pushed);
    var last := Run(inner, body);
    if s.Blocked() || !pushed {
      assert inner.Blocked();
    } else {
      assert last.frames[..|last.frames| - 1] == s.frames;
    }
    assert EndStep(last) == s;
    assert Run(s, Frame(pushed, body, Done)) == Run(EndStep(last), Done);
  }

  /** Nothing live when a trace starts is handed out while it runs; so between a get and the end of its frame
      no other get returns the same bignum. */
  lemma {:induction false} HandedFresh(s: Control, t: Trace)
    ensures forall k :: k in Handed(s, t) ==> k >= s.used
    decreases t
  {
    match t
    case Done =>
    case Get(found, rest) =>
      HandedFresh(GetStep(s, found), rest);
    case Frame(pushed, body, rest) =>
      HandedFresh(StartStep(s, pushed), body);
      FrameRestores(s, pushed, body);
      assert EndStep(Run(StartStep(s, pushed), body)) == Run(s, Frame(pushed, body, Done));
      HandedFresh(s, rest);
  }

  /** A failed get blocks the rest of its frame and everything nested in it. */
  lemma BlockedHandsNothing(s: Control, t: Trace)
    requires s.Blocked()
    ensures Handed(s, t) == {}
    decreases t
  {
    match t
    case Done =>
    case Get(found, rest) => BlockedHandsNothing(s, rest);
    case Frame(pushed, body, rest) =>
      BlockedHandsNothing(StartStep(s, pushed), body);
      BlockedHandsNothing(s, rest);
  }

  // ---------------------------------------------------------------- the pool

  /** BN_POOL_ITEM. */
  class Block {
    const vals: array<int>
    var prev: Block?
    var next: Block?

    constructor ()
      ensures fresh(vals) && vals.Length == POOL_SIZE && prev == null && next == null
    {
      vals := new int[POOL_SIZE];
      prev, next := null, null;
    }
  }

  /** The blocks form one doubly linked list, in this order, and have arrays of their own. */
  ghost predicate Chain(blocks: seq<Block>)
    reads blocks
  {
    && (forall i, j :: 0 <= i < j < |blocks| ==> blocks[i].vals != blocks[j].vals)
    && (forall i :: 0 <= i < |blocks| ==> blocks[i].vals.Length == POOL_SIZE)
    && (forall i :: 0 <= i < |blocks| ==> blocks[i].prev == (if i == 0 then null else blocks[i - 1]))
    && (forall i :: 0 <= i < |blocks| ==> blocks[i].next == (if i == |blocks| - 1 then null else blocks[i + 1]))
  }

  lemma ChainAt(blocks: seq<Block>, i: nat)
    requires Chain(blocks) && i < |blocks|
    ensures blocks[i].vals.Length == POOL_SIZE
    ensures blocks[i].prev == if i == 0 then null else blocks[i - 1]
    ensures blocks[i].next == if i == |blocks| - 1 then null else blocks[i + 1]
  {
  }

  lemma ChainDistinct(blocks: seq<Block>, i: nat, j: nat)
    requires Chain(blocks) && i < |blocks| && j < |blocks| && i != j
    ensures blocks[i] != blocks[j] && blocks[i].vals != blocks[j].vals
  {
  }

  /** BN_zero on a bignum of the k-th block. */
  method Zero(item: Block, slot: nat, ghost blocks: seq<Block>, ghost k: nat)
    requires Chain(blocks) && k < |blocks| && item == blocks[k] && slot < POOL_SIZE
    modifies item.vals
    ensures item.vals.Length == POOL_SIZE && item.vals[slot] == 0
    ensures forall i, j | 0 <= i < |blocks| && 0 <= j < POOL_SIZE && (item != blocks[i] || slot != j) ::
              blocks[i].vals[j] == old(blocks[i].vals[j])
  {
    item.vals[slot] := 0;
  }

  /** Appending a block to a chain by the two pointers that change. */
  method LinkAfter(item: Block, last: Block?, ghost blocks: seq<Block>)
    requires Chain(blocks) && item.vals.Length == POOL_SIZE && forall b :: b in blocks ==> b.vals != item.vals
    requires last == if blocks == [] then null else blocks[|blocks| - 1]
    modifies item, if last != null then {last} else {}
    ensures Chain(blocks + [item])
  {
    item.prev := last;
    item.next := null;
    if last != null {
      last.next := item;
    }
    ghost var all := blocks + [item];
    forall i | 0 <= i < |all|
      ensures all[i].prev == (if i == 0 then null else all[i - 1])
      ensures all[i].next == (if i == |all| - 1 then null else all[i + 1])
    {
      if i < |blocks| {
        assert blocks[i] in blocks && blocks[i].prev == old(blocks[i].prev);
        assert old(blocks[i].prev) == if i == 0 then null else blocks[i - 1];
      }
    }
    assert Chain(all);
  }

  class Pool {
    var head: Block?
    var current: Block?
    var tail: Block?
    var used: nat
    var size: nat
    ghost var blocks: seq<Block>

    ghost predicate Linked()
      reads this, blocks
    {
      && Chain(blocks)
      && head == (if blocks == [] then null else blocks[0])
      && tail == (if blocks == [] then null else blocks[|blocks| - 1])
    }

    /** current holds the last live bignum, the k-th of which is slot k % 16 of block k / 16. */
    ghost predicate Valid()
      reads this, blocks
    {
      && Linked() && size == POOL_SIZE * |blocks| && used <= size
      && current == (if used == 0 then null else blocks[(used - 1) / POOL_SIZE])
    }

    constructor ()
      ensures Valid() && used == 0 && blocks == []
    {
      head, current, tail := null, null, null;
      used, size := 0, 0;
      blocks := [];
    }

    /** A new block goes in at the tail. */
    method Extend(item: Block)
      requires Valid() && used == size && item.vals.Length == POOL_SIZE
      requires forall b :: b in blocks ==> b.vals != item.vals
      modifies this, item, if tail != null then {tail} else {}
      ensures Linked() && blocks == old(blocks) + [item] && current == item
      ensures size == POOL_SIZE * |blocks| && used == old(used)
    {
      hide Chain;
      LinkAfter(item, tail, blocks);
      if head == null {
        head := item;
      }
      tail := item;
      current := item;
      blocks := blocks + [item];
      size := size + POOL_SIZE;
    }

    /** BN_POOL_get. */
    method Get(mallocOk: bool) returns (item: Block?, slot: nat)
      requires Valid()
      modifies this, blocks
      ensures Valid() && old(blocks) <= blocks
      ensures forall b :: b in blocks ==> b in old(blocks) || (fresh(b) && fresh(b.vals))
      ensures item == null <==> old(used) == old(size) && !mallocOk
      ensures item == null ==> used == old(used)
      ensures item != null ==> used == old(used) + 1
      ensures item != null ==> item == blocks[old(used) / POOL_SIZE] && slot == old(used) % POOL_SIZE
    {
      hide Chain;
      slot := 0;
      if used == size {
        if !mallocOk {
          return null, 0;
        }
        var block := new Block();
        Extend(block);
        used := used + 1;
        return block, 0;
      }
      Advance();
      item, slot := current, used % POOL_SIZE;
      used := used + 1;
    }

    /** current moves to the block of the next bignum. */
    method Advance()
      requires Valid() && used < size
      modifies this`current
      ensures Linked() && current == blocks[used / POOL_SIZE]
    {
      hide Chain;
      if used == 0 {
        current := head;
      } else if used % POOL_SIZE == 0 {
        NextBlock(used);
        ChainAt(blocks, (used - 1) / POOL_SIZE);
        current := current.next;
      } else {
        SameBlock(used);
      }
    }

    /** BN_POOL_release. */
    method Release(num: nat)
      requires Valid() && 0 < num <= used
      modifies this`used, this`current
      ensures Valid() && used == old(used) - num
    {
      hide Chain;
      var offset := (used - 1) % POOL_SIZE;
      ghost var last := used;
      used := used - num;
      var left := num;
      while left > 0
        invariant 0 <= left <= num && used == old(used) - num && last == used + left && last <= size
        invariant Linked() && size == POOL_SIZE * |blocks|
        invariant offset == (last - 1) % POOL_SIZE
        invariant current == (if last == 0 then null else blocks[(last - 1) / POOL_SIZE])
      {
        left := left - 1;
        if offset == 0 {
          offset := POOL_SIZE - 1;
          PreviousBlock(last);
          ChainAt(blocks, (last - 1) / POOL_SIZE);
          current := current.prev;
        } else {
          offset := offset - 1;
          SameBlock(last - 1);
        }
        last := last - 1;
      }
    }
  }

  lemma NextBlock(used: nat)
    requires used > 0 && used % POOL_SIZE == 0
    ensures used / POOL_SIZE == (used - 1) / POOL_SIZE + 1
  {
  }

  lemma SameBlock(used: nat)
    requires used % POOL_SIZE != 0
    ensures used > 0 && used / POOL_SIZE == (used - 1) / POOL_SIZE
    ensures (used - 1) % POOL_SIZE == used % POOL_SIZE - 1
  {
  }

  lemma PreviousBlock(last: nat)
    requires last > 0 && (last - 1) % POOL_SIZE == 0
    ensures last == 1 <==> (last - 1) / POOL_SIZE == 0
    ensures last > 1 ==> (last - 2) / POOL_SIZE == (last - 1) / POOL_SIZE - 1
    ensures (last - 2) % POOL_SIZE == POOL_SIZE - 1
  {
  }

  /** No two live bignums share a slot. */
  lemma LiveDistinct(p: Pool, j: nat, k: nat)
    requires p.Valid() && j < k < p.used
    ensures j / POOL_SIZE < |p.blocks| && k / POOL_SIZE < |p.blocks|
    ensures p.blocks[j / POOL_SIZE] != p.blocks[k / POOL_SIZE] || j % POOL_SIZE != k % POOL_SIZE
  {
    if j / POOL_SIZE == k / POOL_SIZE {
      assert j == POOL_SIZE * (j / POOL_SIZE) + j % POOL_SIZE;
      assert k == POOL_SIZE * (k / POOL_SIZE) + k % POOL_SIZE;
    } else {
      ChainDistinct(p.blocks, j / POOL_SIZE, k / POOL_SIZE);
    }
  }

  lemma SlotOfItsOwn(p: Pool, n: nat)
    requires p.Valid() && n < p.used
    ensures n / POOL_SIZE < |p.blocks|
    ensures forall k :: 0 <= k < n ==> p.blocks[n / POOL_SIZE] != p.blocks[k / POOL_SIZE] || n % POOL_SIZE != k % POOL_SIZE
  {
    hide Chain;
    forall k | 0 <= k < n
      ensures p.blocks[n / POOL_SIZE] != p.blocks[k / POOL_SIZE] || n % POOL_SIZE != k % POOL_SIZE
    {
      LiveDistinct(p, k, n);
    }
  }

  // ---------------------------------------------------------------- the frame stack

  class Stack {
    var indexes: array<nat>
    var depth: nat
    var size: nat

    ghost predicate Valid()
      reads this, indexes
    {
      depth <= size == indexes.Length && (size == 0 || size >= START_FRAMES)
    }

    ghost function Frames(): seq<nat>
      requires Valid()
      reads this, indexes
    {
      indexes[..depth]
    }

    constructor ()
      ensures Valid() && fresh(indexes) && Frames() == []
    {
      indexes := new nat[0];
      depth, size := 0, 0;
    }

    /** BN_STACK_push: 32 frames at first, then half as many again. */
    method Push(idx: nat, mallocOk: bool) returns (ok: bool)
      requires Valid()
      modifies this, indexes
      ensures Valid() && (indexes == old(indexes) || fresh(indexes))
      ensures ok <==> old(depth) < old(size) || mallocOk
      ensures Frames() == if ok then old(Frames()) + [idx] else old(Frames())
    {
      if depth == size {
        var newSize := if size > 0 then size * 3 / 2 else START_FRAMES;
        if !mallocOk {
          return false;
        }
        var newItems := new nat[newSize];
        forall i | 0 <= i < depth {
          newItems[i] := indexes[i];
        }
        indexes := newItems;
        size := newSize;
      }
      indexes[depth] := idx;
      depth := depth + 1;
      ok := true;
    }

    method Pop() returns (idx: nat)
      requires Valid() && depth > 0
      modifies this`depth
      ensures Valid() && Frames() == old(Frames())[..old(depth) - 1] && idx == old(Frames())[old(depth) - 1]
    {
      depth := depth - 1;
      idx := indexes[depth];
    }
  }

  // ---------------------------------------------------------------- the context

  /** Each frame was opened with no more bignums live than the next one, and than there are now. */
  predicate Ascending(frames: seq<nat>, used: nat) {
    && (forall i :: 0 <= i < |frames| ==> frames[i] <= used)
    && (forall i, j :: 0 <= i < j < |frames| ==> frames[i] <= frames[j])
  }

  lemma AscendingSteps(frames: seq<nat>, used: nat)
    requires Ascending(frames, used)
    ensures Ascending(frames + [used], used) && Ascending(frames, used + 1)
    ensures frames != [] ==> frames[|frames| - 1] <= used
    ensures frames != [] ==> Ascending(frames[..|frames| - 1], frames[|frames| - 1])
  {
  }

  class Ctx {
    const pool: Pool
    const stack: Stack
    var used: nat
    var errStack: nat
    var tooMany: bool

    ghost predicate Valid()
      reads this, pool, pool.blocks, stack, stack.indexes
    {
      && pool.Valid() && stack.Valid() && pool.used == used
      && Ascending(stack.Frames(), used)
    }

    ghost function State(): Control
      requires Valid()
      reads this, pool, pool.blocks, stack, stack.indexes
    {
      Control(used, stack.Frames(), errStack, tooMany)
    }

    /** BN_CTX_new. */
    constructor ()
      ensures Valid() && fresh(pool) && fresh(stack) && fresh(stack.indexes) && pool.blocks == []
      ensures State() == Control(0, [], 0, false)
    {
      used, errStack, tooMany := 0, 0, false;
      pool := new Pool();
      stack := new Stack();
    }

    /** BN_CTX_start. */
    method Start(mallocOk: bool) returns (ghost pushed: bool)
      requires Valid()
      modifies this`errStack, stack, stack.indexes
      ensures Valid() && (stack.indexes == old(stack.indexes) || fresh(stack.indexes))
      ensures State() == StartStep(old(State()), pushed)
      ensures mallocOk ==> pushed
    {
      hide Chain, Ascending;
      AscendingSteps(stack.Frames(), used);
      pushed := mallocOk;
      if errStack > 0 || tooMany {
        errStack := errStack + 1;
      } else {
        var ok := stack.Push(used, mallocOk);
        pushed := ok;
        if !ok {
          errStack := errStack + 1;
        }
      }
    }

    /** BN_CTX_get: the bignum it returns is zero, sits at the position after the last live one, and is none of
        the live ones. Every other bignum of the pool, live or not, keeps its value. */
    method Get(mallocOk: bool) returns (item: Block?, slot: nat, ghost found: bool)
      requires Valid()
      modifies this`used, this`tooMany, pool, pool.blocks, set b | b in pool.blocks :: b.vals
      ensures Valid() && State() == GetStep(old(State()), found)
      ensures mallocOk ==> found
      ensures old(pool.blocks) <= pool.blocks
      ensures forall b :: b in pool.blocks ==> b in old(pool.blocks) || (fresh(b) && fresh(b.vals))
      ensures item != null <==> !old(State()).Blocked() && found
      ensures item != null ==> item in pool.blocks && slot < POOL_SIZE && item.vals.Length == POOL_SIZE
      ensures item != null ==> item.vals[slot] == 0
      ensures item != null ==> item == pool.blocks[old(used) / POOL_SIZE] && slot == old(used) % POOL_SIZE
      ensures item != null ==> forall k :: 0 <= k < old(used) ==>
                item != pool.blocks[k / POOL_SIZE] || slot != k % POOL_SIZE
      ensures forall i, j | 0 <= i < |old(pool.blocks)| && 0 <= j < POOL_SIZE && (item != pool.blocks[i] || slot != j) ::
                pool.blocks[i].vals[j] == old(pool.blocks[i].vals[j])
    {
      hide Chain, Ascending;
      AscendingSteps(stack.Frames(), used);
      slot, found := 0, mallocOk;
      if errStack > 0 || tooMany {
        return null, 0, found;
      }
      item, slot := pool.Get(mallocOk);
      found := item != null;
      if item == null {
        tooMany := true;
        return null, 0, found;
      }
      Zero(item, slot, pool.blocks, used / POOL_SIZE);
      used := used + 1;
      SlotOfItsOwn(pool, old(used));
    }

    /** BN_CTX_end, in a context with a frame to end. */
    method End()
      requires Valid() && (errStack > 0 || stack.depth > 0)
      modifies this`used, this`errStack, this`tooMany, pool`used, pool`current, stack`depth
      ensures Valid() && State() == EndStep(old(State()))
    {
      hide Chain, Ascending;
      AscendingSteps(stack.Frames(), used);
      if errStack > 0 {
        errStack := errStack - 1;
      } else {
        var fp := stack.Pop();
        if fp < used {
          pool.Release(used - fp);
        }
        used := fp;
        tooMany := false;
      }
    }
  }
}
