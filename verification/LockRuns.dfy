/**
  What holds over whole runs of LockedValue: linearizability, lost updates, tickets, lock discipline
  and progress.
 */
module LockRuns {
  import opened Arithmetic
  import opened Basics
  import opened LockMachine

  ghost predicate Reachable(m: nat, n: nat, steps: seq<Step>, s: State) {
    Runs(Init(m, n), steps, s)
  }

  lemma {:induction false} RunKeeps(s: State, steps: seq<Step>, s': State)
    requires Inv(s) && Runs(s, steps, s')
    ensures Inv(s') && s'.m == s.m && |s'.threads| == |s.threads|
    decreases |steps|
  {
    hide Inv;
    if steps != [] {
      StepKeeps(s, steps[0]);
      RunKeeps(Apply(s, steps[0]), steps[1..], s');
    }
  }

  lemma ReachableInv(m: nat, n: nat, steps: seq<Step>, s: State)
    requires Reachable(m, n, steps, s)
    ensures Inv(s) && s.m == m && |s.threads| == n
  {
    InitInv(m, n);
    RunKeeps(Init(m, n), steps, s);
  }

  ghost predicate Linearizable(m: nat, h: seq<Event>) {
    exists order :: IsLinearization(m, h, order)
  }

  /** Linearizability: for any number of threads and any interleaving, the observed history has a
      sequential order of the calls that respects real time and yields the same replies; the order in
      which the calls took effect is one. */
  lemma Linearizability(m: nat, n: nat, steps: seq<Step>, s: State)
    requires Reachable(m, n, steps, s)
    ensures IsLinearization(m, s.history, s.order)
    ensures Linearizable(m, s.history)
  {
    ReachableInv(m, n, steps, s);
  }

  /** Each call takes effect inside its critical section: only a body step changes the value or the
      order, its thread then holds the lock, for writing if the value changes, and the entry is its call's. */
  lemma EffectsInCriticalSection(m: nat, n: nat, steps: seq<Step>, s: State, step: Step)
    requires Reachable(m, n, steps, s) && Enabled(s, step)
    ensures var s', p := Apply(s, step), s.threads[step.t];
            s'.value != s.value || s'.order != s.order ==>
              step.Body? && s.lock.HeldBy(step.t) && (s'.value != s.value ==> s.lock.writer == Some(step.t)) &&
              s'.order == s.order + [Entry(p.c, step.t, p.op, Answer(m, s.value, p.op))]
  {
    ReachableInv(m, n, steps, s);
    PhaseOf(s, step.t);
    hide IsLinearization, CallInv, Replay;
  }

  /** Who is let in: a reader exactly while nobody else writes, anything else exactly while nobody else is
      inside at all. */
  lemma LetIn(m: nat, n: nat, steps: seq<Step>, s: State, t: nat)
    requires Reachable(m, n, steps, s) && t < |s.threads| && s.threads[t].Called?
    ensures Enabled(s, Acquire(t)) <==>
            forall u :: 0 <= u < |s.threads| && s.threads[u].Holding() ==> s.threads[t].op.Get? && s.threads[u].op.Get?
  {
    ReachableInv(m, n, steps, s);
    hide IsLinearization, CallInv, Replay, PhaseInv;
    if s.lock.writer.Some? {
      assert s.threads[s.lock.writer.value].Holding();
    }
    if s.lock.readers != {} {
      var u :| u in s.lock.readers;
      assert s.threads[u].Holding();
    }
  }

  /** Lock discipline and stable snapshots: at most one writer and never alongside readers, whoever
      unlocks holds the lock in the mode its call needs, and what a reader has saved is the current
      value until it unlocks. */
  lemma LockDiscipline(m: nat, n: nat, steps: seq<Step>, s: State, t: nat, u: nat)
    requires Reachable(m, n, steps, s) && t < |s.threads| && u < |s.threads|
    ensures s.threads[t].Holding() && s.threads[u].Holding() && t != u ==> s.threads[t].op.Get? && s.threads[u].op.Get?
    ensures Enabled(s, Release(t)) ==>
              if s.threads[t].op.Get? then t in s.lock.readers && s.lock.writer == None
              else s.lock.writer == Some(t) && s.lock.readers == {}
    ensures s.threads[t].Done? && s.threads[t].op.Get? ==> s.threads[t].reply == Value(s.value)
  {
    ReachableInv(m, n, steps, s);
    PhaseOf(s, t);
    hide IsLinearization, CallInv, Replay;
  }

  // ---------- No lost update ----------

  // The last value set (0 at first), and the increases and decreases applied since.
  datatype Tally = Tally(base: int, ups: nat, downs: nat)

  function TallyOf(order: seq<Entry>): Tally {
    if order == [] then Tally(0, 0, 0)
    else
      var before := TallyOf(order[..|order| - 1]);
      match order[|order| - 1].op
      case Set(x) => Tally(x, 0, 0)
      case Get => before
      case Increase => before.(ups := before.ups + 1)
      case Decrease => before.(downs := before.downs + 1)
  }

  function Sum(y: Tally): int { y.base + y.ups - y.downs }

  // Wrapping early does not matter.
  lemma WrapAgain(m: nat, a: int, k: int)
    ensures Wrap(m, Wrap(m, a) + k) == Wrap(m, a + k)
  {
    if m > 0 {
      AddMultiple(a % m + k, m, a / m);
      Euclid(a, m);
    }
  }

  lemma SumStep(order: seq<Entry>)
    requires order != []
    ensures var before := Sum(TallyOf(order[..|order| - 1]));
            Sum(TallyOf(order))
            == match order[|order| - 1].op
               case Set(x) => x
               case Get => before
               case Increase => before + 1
               case Decrease => before - 1
  {
  }

  lemma ReplayStep(m: nat, order: seq<Entry>)
    ensures order == [] ==> Replay(m, order) == Wrap(m, Sum(TallyOf(order)))
    ensures order != [] ==> Replay(m, order) == After(m, Replay(m, order[..|order| - 1]), order[|order| - 1].op)
  {
  }

  lemma {:induction false} ReplayTally(m: nat, order: seq<Entry>)
    ensures Replay(m, order) == Wrap(m, Sum(TallyOf(order)))
  {
    hide Wrap, TallyOf, Sum, Replay;
    ReplayStep(m, order);
    if order != [] {
      var front := order[..|order| - 1];
      var sum := Sum(TallyOf(front));
      ReplayTally(m, front);
      WrapAgain(m, sum, 1);
      WrapAgain(m, sum, -1);
      SumStep(order);
    }
  }

  /** No lost update: the value always equals the last value set plus the increases minus the decreases
      applied since, modulo the width of Type if it wraps. */
  lemma NoLostUpdate(m: nat, n: nat, steps: seq<Step>, s: State)
    requires Reachable(m, n, steps, s)
    ensures StandsFor(m, s.value, Sum(TallyOf(s.order)))
  {
    ReachableInv(m, n, steps, s);
    ReplayTally(m, s.order);
    WrapStandsFor(m, Sum(TallyOf(s.order)));
  }

  lemma {:induction false} LegalReply(m: nat, order: seq<Entry>, k: nat)
    requires Legal(m, order) && k < |order|
    ensures order[k].reply == Answer(m, Replay(m, order[..k]), order[k].op)
    ensures order[k].op.Set? || order[k].reply == Value(Replay(m, order[..k + 1]))
    decreases |order|
  {
    var front := order[..|order| - 1];
    if k < |front| {
      LegalReply(m, front, k);
      assert front[..k] == order[..k] && front[..k + 1] == order[..k + 1];
    } else {
      assert order[..k] == front && order[..k + 1] == order;
    }
  }

  /** And so every call but set answers what that sum was when it had taken effect, and set nothing. */
  lemma RepliesAreSums(m: nat, n: nat, steps: seq<Step>, s: State, k: nat)
    requires Reachable(m, n, steps, s) && k < |s.order|
    ensures s.order[k].op.Set? ==> s.order[k].reply == Unit
    ensures !s.order[k].op.Set? ==>
              s.order[k].reply.Value? && StandsFor(m, s.order[k].reply.v, Sum(TallyOf(s.order[..k + 1])))
  {
    ReachableInv(m, n, steps, s);
    LegalReply(m, s.order, k);
    ReplayTally(m, s.order[..k + 1]);
    WrapStandsFor(m, Sum(TallyOf(s.order[..k + 1])));
    hide StandsFor, Legal, Replay, TallyOf, Wrap;
  }

  // ---------- Tickets ----------

  // Nobody sets or decreases.
  ghost predicate OnlyIncreases(h: seq<Event>) {
    forall e :: e in h ==> e.op.Increase? || e.op.Get?
  }

  function Increases(order: seq<Entry>): nat {
    if order == [] then 0
    else Increases(order[..|order| - 1]) + if order[|order| - 1].op.Increase? then 1 else 0
  }

  lemma OrderOnlyIncreases(m: nat, h: seq<Event>, order: seq<Entry>)
    requires IsLinearization(m, h, order) && OnlyIncreases(h)
    ensures forall k :: 0 <= k < |order| ==> order[k].op.Increase? || order[k].op.Get?
  {
    forall k | 0 <= k < |order|
      ensures order[k].op.Increase? || order[k].op.Get?
    {
      var x := order[k];
      assert x in order && Invoked(x.c, x.t, x.op) in h;
    }
  }

  lemma {:induction false} ReplayCounts(order: seq<Entry>)
    requires forall i :: 0 <= i < |order| ==> order[i].op.Increase? || order[i].op.Get?
    ensures Replay(0, order) == Increases(order)
  {
    if order != [] {
      ReplayCounts(order[..|order| - 1]);
    }
  }

  // In such an order every reply is the number of increases so far.
  lemma {:induction false} RepliesCount(order: seq<Entry>, k: nat)
    requires Legal(0, order) && k < |order|
    requires forall i :: 0 <= i < |order| ==> order[i].op.Increase? || order[i].op.Get?
    ensures order[k].reply == Value(Increases(order[..k + 1]))
    decreases |order|
  {
    var front := order[..|order| - 1];
    if k < |front| {
      RepliesCount(front, k);
      assert front[..k + 1] == order[..k + 1];
    } else {
      assert order[..k + 1] == order;
      ReplayCounts(front);
    }
  }

  lemma {:induction false} IncreasesMonotone(order: seq<Entry>, p: nat, q: nat)
    requires p <= q <= |order|
    ensures Increases(order[..p]) <= Increases(order[..q])
    decreases q
  {
    if p < q {
      IncreasesMonotone(order, p, q - 1);
      assert order[..q][..q - 1] == order[..q - 1];
    }
  }

  lemma NextIncrease(order: seq<Entry>, p: nat)
    requires p < |order|
    ensures Increases(order[..p + 1]) == Increases(order[..p]) + if order[p].op.Increase? then 1 else 0
  {
    assert order[..p + 1][..p] == order[..p];
  }

  lemma OnlyIncreasing(n: nat, steps: seq<Step>, s: State)
    requires Reachable(0, n, steps, s) && OnlyIncreases(s.history)
    ensures Legal(0, s.order) && Accounts(s.history, s.order) && RespectsRealTime(s.history, s.order)
    ensures forall k :: 0 <= k < |s.order| ==> s.order[k].op.Increase? || s.order[k].op.Get?
  {
    ReachableInv(0, n, steps, s);
    OrderOnlyIncreases(0, s.history, s.order);
  }

  /** Unique tickets: when nobody sets or decreases an unbounded counter, the k-th increase to take
      effect is answered k, so no two increases are answered alike. */
  lemma UniqueTickets(n: nat, steps: seq<Step>, s: State, p: nat, q: nat)
    requires Reachable(0, n, steps, s) && OnlyIncreases(s.history)
    requires p < |s.order| && s.order[p].op.Increase?
    ensures s.order[p].reply == Value(Increases(s.order[..p]) + 1)
    ensures p < q < |s.order| && s.order[q].op.Increase? ==> s.order[p].reply != s.order[q].reply
  {
    var order := s.order;
    OnlyIncreasing(n, steps, s);
    hide *;
    RepliesCount(order, p);
    NextIncrease(order, p);
    if p < q < |order| {
      RepliesCount(order, q);
      NextIncrease(order, q);
      IncreasesMonotone(order, p + 1, q);
    }
  }

  // ---------- Write-lock order ----------

  // The calls that a step, or a run, makes the lock's writer, in order.
  function Grants(s: State, step: Step): seq<nat>
    requires Enabled(s, step)
  {
    if step.Acquire? && !s.threads[step.t].op.Get? then [s.threads[step.t].c] else []
  }

  ghost function WriteGrants(s: State, steps: seq<Step>): seq<nat>
    decreases |steps|
  {
    if steps == [] || !Enabled(s, steps[0]) then []
    else Grants(s, steps[0]) + WriteGrants(Apply(s, steps[0]), steps[1..])
  }

  // The calls of an order that are no mere reads.
  function Writers(order: seq<Entry>): seq<nat> {
    if order == [] then []
    else Writers(order[..|order| - 1]) + if order[|order| - 1].op.Get? then [] else [order[|order| - 1].c]
  }

  // The call of a writer that has not taken effect yet.
  function Awaited(s: State): seq<nat> {
    if s.lock.writer.Some? && s.lock.writer.value < |s.threads| then
      var p := s.threads[s.lock.writer.value];
      if p.Inside? || p.Loaded? then [p.c] else []
    else []
  }

  lemma WritersAppend(order: seq<Entry>, x: Entry)
    ensures Writers(order + [x]) == Writers(order) + if x.op.Get? then [] else [x.c]
  {
    assert (order + [x])[..|order|] == order;
  }

  lemma HoldOfThread(s: State, t: nat)
    requires Inv(s) && t < |s.threads|
    ensures s.lock.writer == Some(t) <==> s.threads[t].Holding() && !s.threads[t].op.Get?
    ensures s.threads[t].Holding() ==> s.lock.writer.None? || s.lock.writer == Some(t)
    ensures s.lock.writer.Some? ==> s.lock.writer.value < |s.threads|
    ensures (s.threads[t].Loaded? || s.threads[t].Stored?) ==> !s.threads[t].op.Get?
  {
    PhaseOf(s, t);
    hide IsLinearization, CallInv, Replay;
  }

  lemma EffectAppends(s: State, t: nat)
    requires Inv(s) && Enabled(s, Body(t)) && Apply(s, Body(t)).order != s.order
    ensures var p := s.threads[t];
            Apply(s, Body(t)).order == s.order + [Entry(p.c, t, p.op, Answer(s.m, s.value, p.op))]
  {
    PhaseOf(s, t);
    hide IsLinearization, CallInv, Replay, LockInv;
  }

  lemma GrantRecorded(s: State, step: Step)
    requires Inv(s) && Enabled(s, step)
    ensures var s' := Apply(s, step);
            Writers(s'.order) + Awaited(s') == Writers(s.order) + Awaited(s) + Grants(s, step)
  {
    hide Inv, Writers, Wrap;
    var t := step.t;
    HoldOfThread(s, t);
    var s', p := Apply(s, step), s.threads[t];
    if s'.order != s.order {
      var x := Entry(p.c, t, p.op, Answer(s.m, s.value, p.op));
      EffectAppends(s, t);
      WritersAppend(s.order, x);
      assert Awaited(s') == [];
    } else if step.Acquire? {
      assert Awaited(s) == [];
    } else {
      assert Awaited(s') == Awaited(s);
    }
  }

  lemma {:induction false} GrantsRecorded(s: State, steps: seq<Step>, s': State)
    requires Inv(s) && Runs(s, steps, s')
    ensures Writers(s'.order) + Awaited(s') == Writers(s.order) + Awaited(s) + WriteGrants(s, steps)
    decreases |steps|
  {
    hide Inv, Writers, Awaited, Grants;
    if steps != [] {
      var s1 := Apply(s, steps[0]);
      GrantRecorded(s, steps[0]);
      StepKeeps(s, steps[0]);
      GrantsRecorded(s1, steps[1..], s');
    }
  }

  /** Calls that may write take effect in the order in which the lock was granted to them for writing; at
      any time at most the last of them is still to take effect. */
  lemma EffectsInGrantOrder(m: nat, n: nat, steps: seq<Step>, s: State)
    requires Reachable(m, n, steps, s)
    ensures WriteGrants(Init(m, n), steps) == Writers(s.order) + Awaited(s)
    ensures |Awaited(s)| <= 1
  {
    InitInv(m, n);
    GrantsRecorded(Init(m, n), steps, s);
    hide WriteGrants;
  }

  lemma {:induction false} WritersAreIncreases(order: seq<Entry>, p: nat)
    requires p <= |order|
    requires forall i :: 0 <= i < |order| ==> order[i].op.Increase? || order[i].op.Get?
    ensures Increases(order[..p]) <= |Writers(order)|
    ensures p == |order| ==> Increases(order[..p]) == |Writers(order)|
    ensures p < |order| && order[p].op.Increase? ==>
              Increases(order[..p]) < |Writers(order)| && Writers(order)[Increases(order[..p])] == order[p].c
    decreases |order|
  {
    if order != [] {
      var front := order[..|order| - 1];
      WritersAreIncreases(front, |front|);
      assert front[..|front|] == front;
      if p < |order| {
        WritersAreIncreases(front, p);
        assert front[..p] == order[..p];
      } else {
        assert order[..p] == order;
      }
    }
  }

  /** Tickets in write-lock order: when nobody sets or decreases an unbounded counter, the k-th call to be
      granted the lock for writing is the k-th increase, and it is answered k. */
  lemma TicketsInGrantOrder(n: nat, steps: seq<Step>, s: State, p: nat)
    requires Reachable(0, n, steps, s) && OnlyIncreases(s.history)
    requires p < |s.order| && s.order[p].op.Increase?
    ensures var k, grants := Increases(s.order[..p]), WriteGrants(Init(0, n), steps);
            k < |grants| && grants[k] == s.order[p].c && s.order[p].reply == Value(k + 1)
  {
    OnlyIncreasing(n, steps, s);
    UniqueTickets(n, steps, s, p, p);
    EffectsInGrantOrder(0, n, steps, s);
    WritersAreIncreases(s.order, p);
    hide *;
  }

  lemma PlaceOf(h: seq<Event>, order: seq<Entry>, i: nat) returns (p: nat)
    requires Accounts(h, order) && i < |h| && h[i].Returned?
    ensures p < |order| && order[p] == Entry(h[i].c, h[i].t, h[i].op, h[i].reply)
  {
    assert h[i] in h;
    p :| p < |order| && order[p] == Entry(h[i].c, h[i].t, h[i].op, h[i].reply);
  }

  /** And so no two returned increases have the same reply. */
  lemma UniqueReplies(n: nat, steps: seq<Step>, s: State, i: nat, k: nat)
    requires Reachable(0, n, steps, s) && OnlyIncreases(s.history)
    requires i < k < |s.history| && s.history[i].Returned? && s.history[k].Returned?
    requires s.history[i].op.Increase? && s.history[k].op.Increase?
    ensures s.history[i].reply != s.history[k].reply
  {
    ReachableInv(0, n, steps, s);
    assert s.history[i].c != s.history[k].c;
    hide Reachable, Inv, Legal, WellFormed, RespectsRealTime, OnlyIncreases;
    assert Accounts(s.history, s.order);
    var p := PlaceOf(s.history, s.order, i);
    var q := PlaceOf(s.history, s.order, k);
    UniqueTickets(n, steps, s, p, q);
    UniqueTickets(n, steps, s, q, p);
  }

  lemma AnswersGrow(order: seq<Entry>, p: nat, q: nat)
    requires Legal(0, order) && p < q < |order|
    requires forall k :: 0 <= k < |order| ==> order[k].op.Increase? || order[k].op.Get?
    ensures order[p].reply.Value? && order[q].reply.Value?
    ensures if order[q].op.Increase? then order[p].reply.v < order[q].reply.v else order[p].reply.v <= order[q].reply.v
  {
    hide *;
    RepliesCount(order, p);
    RepliesCount(order, q);
    IncreasesMonotone(order, p + 1, q);
    NextIncrease(order, q);
  }

  /** Real-time monotonicity, as an observer of the history sees it: when nobody sets or decreases an
      unbounded counter, a call invoked after another returned never answers less, and answers more if
      it is an increase itself. */
  lemma RealTimeMonotone(n: nat, steps: seq<Step>, s: State, i: nat, j: nat, k: nat)
    requires Reachable(0, n, steps, s) && OnlyIncreases(s.history)
    requires i < j < k < |s.history|
    requires s.history[i].Returned? && s.history[j].Invoked? && s.history[k].Returned?
    requires s.history[j].c == s.history[k].c
    ensures s.history[i].reply.Value? && s.history[k].reply.Value?
    ensures if s.history[k].op.Increase? then s.history[i].reply.v < s.history[k].reply.v
            else s.history[i].reply.v <= s.history[k].reply.v
  {
    var h, order := s.history, s.order;
    OnlyIncreasing(n, steps, s);
    hide Reachable, IsLinearization, Legal, Accounts, OnlyIncreases, WellFormed, Runs, Increases, Replay;
    var p := PlaceOf(h, order, i);
    var q := PlaceOf(h, order, k);
    assert p < q;
    AnswersGrow(order, p, q);
  }

  // ---------- Progress ----------

  // An upper bound on the steps left in a call.
  function StepsLeft(p: Phase): nat {
    match p
    case Idle => 0
    case Released(_, _, _) => 1
    case Done(_, _, _) => 2
    case Stored(_, _) => 3
    case Loaded(_, _, _) => 4
    case Inside(_, _) => 5
    case Called(_, _) => 6
  }

  function AllStepsLeft(threads: seq<Phase>): nat {
    if threads == [] then 0 else StepsLeft(threads[0]) + AllStepsLeft(threads[1..])
  }

  lemma {:induction false} MovedThread(threads: seq<Phase>, t: nat, p: Phase)
    requires t < |threads|
    ensures AllStepsLeft(threads[t := p]) == AllStepsLeft(threads) - StepsLeft(threads[t]) + StepsLeft(p)
  {
    var threads' := threads[t := p];
    if t > 0 {
      MovedThread(threads[1..], t - 1, p);
      assert threads'[1..] == threads[1..][t - 1 := p];
    } else {
      assert threads'[1..] == threads[1..];
    }
  }

  lemma {:induction false} SomeoneIsBusy(threads: seq<Phase>) returns (t: nat)
    requires exists u :: 0 <= u < |threads| && !threads[u].Idle?
    ensures t < |threads| && !threads[t].Idle?
    ensures threads[t].Called? ==> forall u :: 0 <= u < |threads| ==> threads[u].Idle? || threads[u].Called?
  {
    if u :| 0 <= u < |threads| && !threads[u].Idle? && !threads[u].Called? {
      t := u;
    } else {
      t :| t < |threads| && !threads[t].Idle?;
    }
  }

  lemma NobodyHolds(s: State)
    requires LockInv(s)
    requires forall u :: 0 <= u < |s.threads| ==> !s.threads[u].Holding()
    ensures s.lock.Free()
  {
    if s.lock.writer.Some? {
      assert s.lock.HeldBy(s.lock.writer.value);
    }
    if t :| t in s.lock.readers {
      assert s.lock.HeldBy(t);
    }
  }

  /** Progress: whenever a call is unfinished some thread can go on with one.  The step is not a new
      call, and it is an acquisition only if the lock is free, so no fairness of the lock is needed. */
  lemma Progress(m: nat, n: nat, steps: seq<Step>, s: State) returns (next: Step)
    requires Reachable(m, n, steps, s)
    requires exists t :: 0 <= t < |s.threads| && !s.threads[t].Idle?
    ensures Enabled(s, next) && !next.Call?
    ensures next.Acquire? ==> s.lock.Free()
  {
    ReachableInv(m, n, steps, s);
    var t := SomeoneIsBusy(s.threads);
    PhaseOf(s, t);
    hide IsLinearization, CallInv, Replay;
    match s.threads[t] {
      case Called(_, _) =>
        next := Acquire(t);
        NobodyHolds(s);
      case Done(_, _, _) => next := Release(t);
      case Released(_, _, _) => next := Return(t);
      case _ => next := Body(t);
    }
  }

  /** Every step that is not a new call brings the end nearer. */
  lemma StepShortens(s: State, step: Step)
    requires Enabled(s, step) && !step.Call?
    ensures AllStepsLeft(Apply(s, step).threads) < AllStepsLeft(s.threads)
  {
    var p' := Apply(s, step).threads[step.t];
    MovedThread(s.threads, step.t, p');
    assert StepsLeft(p') < StepsLeft(s.threads[step.t]);
  }

  lemma {:induction false} RunShortens(s: State, steps: seq<Step>, s': State)
    requires Runs(s, steps, s')
    requires forall step :: step in steps ==> !step.Call?
    ensures AllStepsLeft(s'.threads) + |steps| <= AllStepsLeft(s.threads)
    decreases |steps|
  {
    if steps != [] {
      StepShortens(s, steps[0]);
      hide AllStepsLeft;
      RunShortens(Apply(s, steps[0]), steps[1..], s');
    }
  }

  lemma {:induction false} RunsCompose(s: State, steps: seq<Step>, s1: State, more: seq<Step>, s2: State)
    requires Runs(s, steps, s1) && Runs(s1, more, s2)
    ensures Runs(s, steps + more, s2)
    decreases |steps|
  {
    if steps == [] {
      assert steps + more == more;
    } else {
      RunsCompose(Apply(s, steps[0]), steps[1..], s1, more, s2);
      assert (steps + more)[1..] == steps[1..] + more;
    }
  }

  /** So once no new calls start, a run has at most as many steps as are left, and when it cannot go on
      every call has returned and the lock is free. */
  lemma MaximalRunsFinish(m: nat, n: nat, steps: seq<Step>, s: State, more: seq<Step>, s': State)
    requires Reachable(m, n, steps, s) && Runs(s, more, s')
    requires forall step :: step in more ==> !step.Call?
    ensures |more| <= AllStepsLeft(s.threads)
    ensures (forall step :: Enabled(s', step) ==> step.Call?) ==>
              s'.lock.Free() && forall t :: 0 <= t < |s'.threads| ==> s'.threads[t].Idle?
  {
    RunShortens(s, more, s');
    RunsCompose(Init(m, n), steps, s, more, s');
    ReachableInv(m, n, steps + more, s');
    if forall step :: Enabled(s', step) ==> step.Call? {
      if exists t :: 0 <= t < |s'.threads| && !s'.threads[t].Idle? {
        var next := Progress(m, n, steps + more, s');
        assert false;
      }
      NobodyHolds(s');
    }
  }
}
