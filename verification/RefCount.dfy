/** Reference counts: the compare-and-swap loops of crypto/refcount_c11.c against the locked version of
    crypto/refcount_lock.c, for any number of threads. */
module RefCount {

  /** CRYPTO_REFCOUNT_MAX. */
  const MAX: nat := 0xFFFF_FFFF

  datatype Op = Inc | Dec

  /** A call returns whether it brought the count to zero, or aborts the process. */
  datatype Result = Done(zero: bool) | Abort

  // ---------------------------------------------------------------- the locked version

  /** One call under the lock. */
  function Locked(count: nat, op: Op): (nat, Result) {
    match op
    case Inc => (if count < MAX then count + 1 else count, Done(false))
    case Dec =>
      if count == 0 then (count, Abort)
      else
        var c := if count < MAX then count - 1 else count;
        (c, Done(c == 0))
  }

  /** Some calls in turn are explained by the locked version: each has the result it would give, and the count
      goes from first to last. */
  predicate Explained(first: nat, calls: seq<(Op, Result)>, last: nat)
    decreases |calls|
  {
    if calls == [] then first == last
    else
      var (c, r) := Locked(first, calls[0].0);
      r == calls[0].1 && Explained(c, calls[1..], last)
  }

  // ---------------------------------------------------------------- the compare-and-swap version

  /** A thread: about to load, about to try an exchange with what it believes the count to be, or finished. */
  datatype Pc = Start(op: Op) | Try(op: Op, expected: nat) | Finished(op: Op, result: Result)

  datatype State = State(count: nat, pcs: seq<Pc>)

  /** A call that has read the value v: it ends at once when there is nothing to exchange. */
  function Look(op: Op, v: nat): Pc {
    if v == MAX then Finished(op, Done(false))
    else if op == Dec && v == 0 then Finished(op, Abort)
    else Try(op, v)
  }

  /** One step of thread t; a weak exchange may fail although the value is the expected one, and on every
      failure it stores the current value. The second part is the call that takes effect with the step. */
  function Step(s: State, t: nat, spurious: bool): (State, seq<(Op, Result)>) {
    if t >= |s.pcs| || s.pcs[t].Finished? then (s, [])
    else
      var op := s.pcs[t].op;
      if s.pcs[t].Try? && s.pcs[t].expected == s.count && !spurious then
        var next := if op == Inc then s.pcs[t].expected + 1 else s.pcs[t].expected - 1;
        var r := Done(op == Dec && next == 0);
        (State(if next < 0 then 0 else next, s.pcs[t := Finished(op, r)]), [(op, r)])
      else
        var pc := Look(op, s.count);
        (s.(pcs := s.pcs[t := pc]), if pc.Finished? then [(op, pc.result)] else [])
  }

  /** What a thread believes is worth exchanging. */
  predicate Sound(pc: Pc) {
    pc.Try? ==> pc.expected < MAX && (pc.op == Dec ==> pc.expected > 0)
  }

  predicate Invariant(s: State) {
    s.count <= MAX && forall t :: 0 <= t < |s.pcs| ==> Sound(s.pcs[t])
  }

  /** Every step keeps the invariant, and the call that takes effect with it, if any, is one call of the locked
      version. */
  lemma StepExplained(s: State, t: nat, spurious: bool)
    requires Invariant(s)
    ensures var (r, calls) := Step(s, t, spurious);
            Invariant(r) && Explained(s.count, calls, r.count)
  {
    var (r, calls) := Step(s, t, spurious);
    if t < |s.pcs| {
      assert Sound(s.pcs[t]);
    }
    if calls != [] {
      assert calls[1..] == [];
      assert Explained(r.count, [], r.count);
    }
  }

  function Run(s: State, schedule: seq<(nat, bool)>): (State, seq<(Op, Result)>)
    decreases |schedule|
  {
    if schedule == [] then (s, [])
    else
      var (r, calls) := Step(s, schedule[0].0, schedule[0].1);
      var (last, more) := Run(r, schedule[1..]);
      (last, calls + more)
  }

  lemma {:induction false} ExplainedAppend(a: nat, xs: seq<(Op, Result)>, b: nat, ys: seq<(Op, Result)>, c: nat)
    requires Explained(a, xs, b) && Explained(b, ys, c)
    ensures Explained(a, xs + ys, c)
    decreases |xs|
  {
    if xs == [] {
      assert xs + ys == ys;
    } else {
      assert (xs + ys)[1..] == xs[1..] + ys;
      ExplainedAppend(Locked(a, xs[0].0).0, xs[1..], b, ys, c);
    }
  }

  /** The loops linearise: under every schedule, with spurious failures anywhere, the calls that have taken
      effect, in that order, are a run of the locked version with the same results and the same count. */
  lemma {:induction false} Linearises(s: State, schedule: seq<(nat, bool)>)
    requires Invariant(s)
    ensures var (r, calls) := Run(s, schedule);
            Invariant(r) && Explained(s.count, calls, r.count)
    decreases |schedule|
  {
    hide Step, Explained;
    if schedule == [] {
      NoCalls(s.count);
    } else {
      var (r, calls) := Step(s, schedule[0].0, schedule[0].1);
      StepExplained(s, schedule[0].0, schedule[0].1);
      Linearises(r, schedule[1..]);
      var (last, more) := Run(r, schedule[1..]);
      ExplainedAppend(s.count, calls, r.count, more, last.count);
    }
  }

  lemma NoCalls(c: nat)
    ensures Explained(c, [], c)
  {
  }

  /** Each call takes effect exactly once, with the result it returns: the finished threads and the calls that
      took effect are the same. */
  lemma {:induction false} EffectOnce(s: State, schedule: seq<(nat, bool)>)
    ensures var (r, calls) := Run(s, schedule);
            |r.pcs| == |s.pcs| && FinishedCalls(r.pcs) == FinishedCalls(s.pcs) + multiset(calls)
    decreases |schedule|
  {
    hide Step, FinishedCalls;
    if schedule != [] {
      var (r, calls) := Step(s, schedule[0].0, schedule[0].1);
      StepFinishes(s, schedule[0].0, schedule[0].1);
      EffectOnce(r, schedule[1..]);
      var (last, more) := Run(r, schedule[1..]);
      assert multiset(calls + more) == multiset(calls) + multiset(more);
    }
  }

  function FinishedCalls(pcs: seq<Pc>): multiset<(Op, Result)> {
    if pcs == [] then multiset{}
    else
      var n := |pcs| - 1;
      FinishedCalls(pcs[..n]) + (if pcs[n].Finished? then multiset{(pcs[n].op, pcs[n].result)} else multiset{})
  }

  lemma OneMore(pcs: seq<Pc>)
    requires pcs != []
    ensures var n := |pcs| - 1;
            FinishedCalls(pcs) == FinishedCalls(pcs[..n]) +
                                  (if pcs[n].Finished? then multiset{(pcs[n].op, pcs[n].result)} else multiset{})
  {
  }

  lemma StepFinishes(s: State, t: nat, spurious: bool)
    ensures var (r, calls) := Step(s, t, spurious);
            |r.pcs| == |s.pcs| && FinishedCalls(r.pcs) == FinishedCalls(s.pcs) + multiset(calls)
  {
    var (r, calls) := Step(s, t, spurious);
    if t < |s.pcs| && !s.pcs[t].Finished? {
      ThreadFinishes(s.pcs, t, r.pcs[t]);
    }
  }

  lemma {:induction false} ThreadFinishes(pcs: seq<Pc>, t: nat, pc: Pc)
    requires t < |pcs| && !pcs[t].Finished?
    ensures FinishedCalls(pcs[t := pc]) ==
            FinishedCalls(pcs) + (if pc.Finished? then multiset{(pc.op, pc.result)} else multiset{})
  {
    hide FinishedCalls;
    var n := |pcs| - 1;
    OneMore(pcs);
    OneMore(pcs[t := pc]);
    if t == n {
      assert pcs[t := pc][..n] == pcs[..n];
    } else {
      assert pcs[t := pc][..n] == pcs[..n][t := pc];
      ThreadFinishes(pcs[..n], t, pc);
    }
  }

  // ---------------------------------------------------------------- what the locked version guarantees

  /** How many calls of one kind have had an effect. */
  function Count(calls: seq<(Op, Result)>, op: Op): nat {
    if calls == [] then 0 else (if calls[0].0 == op && calls[0].1 != Abort then 1 else 0) + Count(calls[1..], op)
  }

  predicate NoAbort(calls: seq<(Op, Result)>) {
    forall i :: 0 <= i < |calls| ==> calls[i].1 != Abort
  }

  /** As long as the count is below saturation it is the references taken less the references given back, however
      often either has happened. */
  lemma {:induction false} CountsReferences(first: nat, calls: seq<(Op, Result)>, last: nat)
    requires Explained(first, calls, last) && first <= MAX && last < MAX
    ensures last == first + Count(calls, Inc) - Count(calls, Dec)
    decreases |calls|
  {
    if first == MAX {
      SaturationIsPermanent(calls, last);
    } else if calls != [] {
      CountsReferences(Locked(first, calls[0].0).0, calls[1..], last);
    }
  }

  /** A saturated count never changes again, and no call reports zero. */
  lemma {:induction false} SaturationIsPermanent(calls: seq<(Op, Result)>, last: nat)
    requires Explained(MAX, calls, last)
    ensures last == MAX && forall i :: 0 <= i < |calls| ==> calls[i].1 == Done(false)
    decreases |calls|
  {
    if calls != [] {
      SaturationIsPermanent(calls[1..], last);
      assert forall i :: 1 <= i < |calls| ==> calls[i] == calls[1..][i - 1];
    }
  }

  /** The references held after one more call. */
  function HeldAfter(held: nat, op: Op): int {
    if op == Inc then held + 1 else held - 1
  }

  /** References are counted from the outside: whoever calls holds one, taking adds one and releasing gives it
      up. The count itself is not looked at. */
  predicate Disciplined(held: nat, calls: seq<(Op, Result)>)
    decreases |calls|
  {
    calls != [] ==> held > 0 && Disciplined(HeldAfter(held, calls[0].0), calls[1..])
  }

  /** The references that such callers hold at the end. */
  function Held(held: nat, calls: seq<(Op, Result)>): nat
    requires Disciplined(held, calls)
    decreases |calls|
  {
    if calls == [] then held else Held(HeldAfter(held, calls[0].0), calls[1..])
  }

  /** Callers that only use references they hold never abort, and the count is the references held unless it has
      saturated. Zero is reported by the call that gives up the last reference and by no other. */
  lemma {:induction false} LastReference(first: nat, held: nat, calls: seq<(Op, Result)>, last: nat)
    requires Explained(first, calls, last) && Disciplined(held, calls)
    requires first == MAX || (first == held <= MAX)
    ensures NoAbort(calls) && (last == MAX || last == Held(held, calls))
    ensures forall i :: 0 <= i < |calls| && calls[i].1 == Done(true) ==> i == |calls| - 1 && calls[i].0 == Dec
    ensures calls != [] && last != MAX ==> (Held(held, calls) == 0 <==> calls[|calls| - 1].1 == Done(true))
    decreases |calls|
  {
    if calls != [] {
      var c := Locked(first, calls[0].0).0;
      var h := HeldAfter(held, calls[0].0);
      var rest := calls[1..];
      assert forall i :: 1 <= i < |calls| ==> calls[i] == rest[i - 1];
      LastReference(c, h, rest, last);
    }
  }

  /** Under every schedule of the loops: when nothing is held and no thread takes a reference, every release that
      is made aborts, and the count stays 0. */
  lemma {:induction false} ReleaseOfNothing(s: State, schedule: seq<(nat, bool)>)
    requires Invariant(s) && s.count == 0
    requires forall t :: 0 <= t < |s.pcs| && !s.pcs[t].Finished? ==> s.pcs[t].op == Dec
    ensures var (r, calls) := Run(s, schedule);
            r.count == 0 && forall i :: 0 <= i < |calls| ==> calls[i] == (Dec, Abort)
    decreases |schedule|
  {
    if schedule != [] {
      var t := schedule[0].0;
      if t < |s.pcs| {
        assert Sound(s.pcs[t]);
      }
      StepExplained(s, t, schedule[0].1);
      ReleaseOfNothing(Step(s, t, schedule[0].1).0, schedule[1..]);
    }
  }

  /** And a release aborts in no other case: what has been taken has all been given back. */
  lemma AbortsOnlyAtZero(s: State, schedule: seq<(nat, bool)>, i: nat)
    requires Invariant(s) && i < |Run(s, schedule).1| && Run(s, schedule).1[i].1 == Abort
    ensures var calls := Run(s, schedule).1;
            calls[i].0 == Dec && s.count + Count(calls[..i], Inc) == Count(calls[..i], Dec)
  {
    var calls := Run(s, schedule).1;
    Linearises(s, schedule);
    var before := ExplainedPrefix(s.count, calls, Run(s, schedule).0.count, i);
    CountsReferences(s.count, calls[..i], before);
  }

  lemma {:induction false} ExplainedPrefix(first: nat, calls: seq<(Op, Result)>, last: nat, i: nat) returns (c: nat)
    requires Explained(first, calls, last) && i < |calls|
    ensures Explained(first, calls[..i], c) && Locked(c, calls[i].0).1 == calls[i].1
    decreases i
  {
    if i == 0 {
      c := first;
    } else {
      c := ExplainedPrefix(Locked(first, calls[0].0).0, calls[1..], last, i - 1);
      assert calls[..i][1..] == calls[1..][..i - 1];
    }
  }
}
