/** run_once: any number of threads and one shared word (crypto/thread_win.c). Every access to the word is one
    step, and a schedule picks whose step is next. */
module RunOnce {

  /** Where a caller of run_once is: before the first look at the word, before the compare-exchange, inside
      init, before the final exchange, back with its caller, or aborted. */
  datatype Pc = Look | Exchange | InInit | Publish | Returned | Aborted

  /** The word, the callers, and how often init has been entered and left. */
  datatype State = State(once: nat, pcs: seq<Pc>, entered: nat, completed: nat)

  /** All callers are about to start; their number is arbitrary. */
  predicate Initial(s: State) {
    s.once == 0 && s.entered == 0 && s.completed == 0 && forall t :: 0 <= t < |s.pcs| ==> s.pcs[t] == Look
  }

  /** One step of thread t. */
  function Step(s: State, t: nat): (r: State)
    ensures |r.pcs| == |s.pcs|
  {
    if t >= |s.pcs| then s
    else
      match s.pcs[t]
      case Look => s.(pcs := s.pcs[t := if s.once == 1 then Returned else Exchange])
      case Exchange =>
        if s.once == 0 then s.(once := 2, pcs := s.pcs[t := InInit], entered := s.entered + 1)
        else if s.once == 1 then s.(pcs := s.pcs[t := Returned])
        else if s.once == 2 then s
        else s.(pcs := s.pcs[t := Aborted])
      case InInit => s.(pcs := s.pcs[t := Publish], completed := s.completed + 1)
      case Publish => s.(once := 1, pcs := s.pcs[t := Returned])
      case Returned => s
      case Aborted => s
  }

  function Run(s: State, schedule: seq<nat>): (r: State)
    ensures |r.pcs| == |s.pcs|
    decreases |schedule|
  {
    if schedule == [] then s else Run(Step(s, schedule[0]), schedule[1..])
  }

  predicate Busy(p: Pc) {
    p == InInit || p == Publish
  }

  predicate Waiting(p: Pc) {
    p == Look || p == Exchange
  }

  /** owner is the thread that runs init, if one does. */
  predicate Holds(s: State, owner: nat) {
    && owner < |s.pcs| && Busy(s.pcs[owner])
    && forall t :: 0 <= t < |s.pcs| && t != owner ==> Waiting(s.pcs[t])
  }

  ghost predicate Invariant(s: State) {
    || (s.once == 0 && s.entered == 0 && s.completed == 0 &&
        forall t :: 0 <= t < |s.pcs| ==> Waiting(s.pcs[t]))
    || (s.once == 2 && s.entered == 1 &&
        exists owner: nat :: Holds(s, owner) && s.completed == (if s.pcs[owner] == Publish then 1 else 0))
    || (s.once == 1 && s.entered == 1 && s.completed == 1 &&
        forall t :: 0 <= t < |s.pcs| ==> Waiting(s.pcs[t]) || s.pcs[t] == Returned)
  }

  lemma StepKeeps(s: State, t: nat)
    requires Invariant(s)
    ensures Invariant(Step(s, t))
  {
    var r := Step(s, t);
    if t < |s.pcs| && s.once == 0 && s.pcs[t] == Exchange {
      assert Holds(r, t);
    } else if t < |s.pcs| && s.once == 2 {
      var owner: nat :| Holds(s, owner) && s.completed == (if s.pcs[owner] == Publish then 1 else 0);
      if t != owner {
        assert Waiting(s.pcs[t]);
      }
      if t != owner || s.pcs[owner] == InInit {
        assert Holds(r, owner);
      }
    }
  }

  lemma {:induction false} RunKeeps(s: State, schedule: seq<nat>)
    requires Invariant(s)
    ensures Invariant(Run(s, schedule))
    decreases |schedule|
  {
    if schedule != [] {
      StepKeeps(s, schedule[0]);
      RunKeeps(Step(s, schedule[0]), schedule[1..]);
    }
  }

  /** Under every schedule init is entered at most once, no call has returned unless init has been entered once
      and has completed, and abort is never reached. */
  lemma OnceOnly(s: State, schedule: seq<nat>)
    requires Initial(s)
    ensures var r := Run(s, schedule);
            && r.entered <= 1
            && (forall t :: 0 <= t < |r.pcs| && r.pcs[t] == Returned ==> r.entered == 1 && r.completed == 1)
            && (forall t :: 0 <= t < |r.pcs| ==> r.pcs[t] != Aborted)
  {
    RunKeeps(s, schedule);
  }

  /** Joining two schedules. */
  lemma {:induction false} RunAppend(s: State, a: seq<nat>, b: seq<nat>)
    ensures Run(s, a + b) == Run(Run(s, a), b)
    decreases |a|
  {
    if a == [] {
      assert a + b == b;
    } else {
      assert (a + b)[1..] == a[1..] + b;
      RunAppend(Step(s, a[0]), a[1..], b);
    }
  }

  /** Once init is over, two steps of its own bring any caller back. */
  lemma TwoSteps(s: State, t: nat)
    requires Invariant(s) && s.once == 1 && t < |s.pcs|
    ensures var r := Step(Step(s, t), t);
            r.once == 1 && Invariant(r) && r.pcs[t] == Returned && r.pcs == s.pcs[t := Returned]
  {
  }

  lemma {:induction false} AllReturn(s: State, n: nat) returns (schedule: seq<nat>)
    requires Invariant(s) && s.once == 1 && n <= |s.pcs|
    requires forall t :: n <= t < |s.pcs| ==> s.pcs[t] == Returned
    ensures forall t :: 0 <= t < |s.pcs| ==> Run(s, schedule).pcs[t] == Returned
    decreases n
  {
    if n == 0 {
      schedule := [];
    } else {
      TwoSteps(s, n - 1);
      var rest := AllReturn(Step(Step(s, n - 1), n - 1), n - 1);
      schedule := [n - 1, n - 1] + rest;
      assert schedule[1..][1..] == rest;
      assert Run(s, schedule) == Run(Step(s, n - 1), schedule[1..]);
    }
  }

  /** No schedule leads to a deadlock: from any state it reaches there is a way on by which every call returns. */
  lemma NeverStuck(s: State, schedule: seq<nat>) returns (more: seq<nat>)
    requires Initial(s)
    ensures forall t :: 0 <= t < |s.pcs| ==> Run(s, schedule + more).pcs[t] == Returned
  {
    RunKeeps(s, schedule);
    var r := Run(s, schedule);
    if |s.pcs| == 0 {
      more := [];
    } else {
      var first := ToDone(r);
      RunKeeps(r, first);
      var rest := AllReturn(Run(r, first), |s.pcs|);
      more := first + rest;
      RunAppend(r, first, rest);
    }
    RunAppend(s, schedule, more);
  }

  /** A way to the end of init. */
  lemma ToDone(s: State) returns (schedule: seq<nat>)
    requires Invariant(s) && |s.pcs| > 0
    ensures Run(s, schedule).once == 1
  {
    if s.once == 1 {
      schedule := [];
    } else if s.once == 2 {
      schedule := OwnerFinishes(s);
    } else if s.pcs[0] == Look {
      assert Waiting(s.pcs[0]);
      StepKeeps(s, 0);
      StepKeeps(Step(s, 0), 0);
      var rest := OwnerFinishes(Step(Step(s, 0), 0));
      schedule := [0, 0] + rest;
      assert schedule[1..][1..] == rest;
      assert Run(s, schedule) == Run(Step(s, 0), schedule[1..]);
    } else {
      assert Waiting(s.pcs[0]);
      StepKeeps(s, 0);
      var rest := OwnerFinishes(Step(s, 0));
      schedule := [0] + rest;
      assert schedule[1..] == rest;
    }
  }

  lemma OwnerFinishes(s: State) returns (schedule: seq<nat>)
    requires Invariant(s) && s.once == 2
    ensures Run(s, schedule).once == 1
  {
    var owner: nat :| Holds(s, owner);
    if s.pcs[owner] == Publish {
      schedule := [owner];
      assert Run(Step(s, owner), []) == Step(s, owner);
    } else {
      schedule := [owner, owner];
      assert schedule[1..] == [owner] && [owner][1..] == [];
      assert Run(s, schedule) == Run(Step(s, owner), [owner]) == Run(Step(Step(s, owner), owner), []);
    }
  }
}
