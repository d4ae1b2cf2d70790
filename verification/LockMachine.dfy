/**
  LockedValue over RWLock as a transition system: any number of threads, each call split into its
  invocation, lock acquisition, loads and stores of the body, unlock and return.
 */
module LockMachine {
  import opened Arithmetic
  import opened Basics

  // ---------- What one call means on its own ----------

  datatype Op = Set(v: int) | Get | Increase | Decrease
  datatype Reply = Unit | Value(v: int)

  // Type is a template parameter: modulus 0 stands for an unbounded integer, m > 0 for one that wraps at m.
  function Wrap(m: nat, v: int): int {
    if m == 0 then v else v % m
  }

  // What v has to be to represent x: x itself, or the one value below m that differs from it by a multiple
  // of m.
  predicate StandsFor(m: nat, v: int, x: int) {
    if m == 0 then v == x else 0 <= v < m && (x - v) % m == 0
  }

  lemma WrapStandsFor(m: nat, x: int)
    ensures StandsFor(m, Wrap(m, x), x)
  {
    if m > 0 {
      Euclid(x, m);
      AddMultiple(0, m, x / m);
    }
  }

  function After(m: nat, v: int, op: Op): int {
    match op
    case Set(x) => Wrap(m, x)
    case Get => v
    case Increase => Wrap(m, v + 1)
    case Decrease => Wrap(m, v - 1)
  }

  function Answer(m: nat, v: int, op: Op): Reply {
    if op.Set? then Unit else Value(After(m, v, op))
  }

  // ---------- The reader-writer lock ----------

  datatype Hold = NoHold | Reading | Writing

  datatype Lock = Lock(readers: set<nat>, writer: Option<nat>) {
    // Acquisition blocks until these hold.
    predicate CanRead() { writer.None? }
    predicate CanWrite() { writer.None? && readers == {} }
    predicate Free() { writer.None? && readers == {} }
    predicate HeldBy(t: nat) { t in readers || writer == Some(t) }
    predicate Exclusive() { writer.Some? ==> readers == {} }

    function HoldOf(t: nat): Hold {
      if writer == Some(t) then Writing else if t in readers then Reading else NoHold
    }

    function ReadLock(t: nat): Lock { this.(readers := readers + {t}) }
    function WriteLock(t: nat): Lock { this.(writer := Some(t)) }
    function UnLock(t: nat): Lock {
      if writer == Some(t) then this.(writer := None) else this.(readers := readers - {t})
    }
  }

  // ---------- The machine ----------

  // Where a thread stands in its call c of op.
  datatype Phase =
    | Idle
    | Called(c: nat, op: Op)                  // before the lock
    | Inside(c: nat, op: Op)                  // lock held, body not begun
    | Loaded(c: nat, op: Op, tmp: int)        // ++ or -- has loaded _value
    | Stored(c: nat, op: Op)                  // ++ or -- has stored _value, t is not yet read
    | Done(c: nat, op: Op, reply: Reply)      // body finished, lock held
    | Released(c: nat, op: Op, reply: Reply)  // unlocked, not yet returned
  {
    predicate Holding() { Inside? || Loaded? || Stored? || Done? }
    predicate Counting() { !Idle? && (op.Increase? || op.Decrease?) }
  }

  // The history an observer sees, and the order in which calls took effect.
  datatype Event = Invoked(c: nat, t: nat, op: Op) | Returned(c: nat, t: nat, op: Op, reply: Reply)
  datatype Entry = Entry(c: nat, t: nat, op: Op, reply: Reply)

  datatype State = State(
    m: nat,
    value: int,
    lock: Lock,
    threads: seq<Phase>,
    calls: nat,
    history: seq<Event>,
    order: seq<Entry>)

  function Init(m: nat, n: nat): State {
    State(m, 0, Lock({}, None), seq(n, _ => Idle), 0, [], [])
  }

  datatype Step = Call(t: nat, op: Op) | Acquire(t: nat) | Body(t: nat) | Release(t: nat) | Return(t: nat)

  predicate Enabled(s: State, step: Step) {
    step.t < |s.threads| &&
    var p := s.threads[step.t];
    match step
    case Call(_, _) => p.Idle?
    case Acquire(_) => p.Called? && if p.op.Get? then s.lock.CanRead() else s.lock.CanWrite()
    case Body(_) => p.Inside? || (p.Loaded? && p.Counting()) || p.Stored?
    case Release(_) => p.Done?
    case Return(_) => p.Released?
  }

  function Apply(s: State, step: Step): State
    requires Enabled(s, step)
  {
    var t := step.t;
    var p := s.threads[t];
    match step
    case Call(_, op) =>
      s.(threads := s.threads[t := Called(s.calls, op)], calls := s.calls + 1,
         history := s.history + [Invoked(s.calls, t, op)])
    case Acquire(_) =>
      s.(threads := s.threads[t := Inside(p.c, p.op)],
         lock := if p.op.Get? then s.lock.ReadLock(t) else s.lock.WriteLock(t))
    case Body(_) =>
      if p.Loaded? then  // store the incremented or decremented temporary
        var v := Wrap(s.m, if p.op.Increase? then p.tmp + 1 else p.tmp - 1);
        s.(value := v, threads := s.threads[t := Stored(p.c, p.op)], order := s.order + [Entry(p.c, t, p.op, Value(v))])
      else if p.Stored? then  // t reads _value again
        s.(threads := s.threads[t := Done(p.c, p.op, Value(s.value))])
      else
        (match p.op
         case Set(x) =>
           s.(value := Wrap(s.m, x), threads := s.threads[t := Done(p.c, p.op, Unit)],
              order := s.order + [Entry(p.c, t, p.op, Unit)])
         case Get =>
           s.(threads := s.threads[t := Done(p.c, p.op, Value(s.value))],
              order := s.order + [Entry(p.c, t, p.op, Value(s.value))])
         case _ =>
           s.(threads := s.threads[t := Loaded(p.c, p.op, s.value)]))
    case Release(_) =>
      s.(threads := s.threads[t := Released(p.c, p.op, p.reply)], lock := s.lock.UnLock(t))
    case Return(_) =>
      s.(threads := s.threads[t := Idle], history := s.history + [Returned(p.c, t, p.op, p.reply)])
  }

  // s' is what the given steps make of s, every one of them being enabled in its turn.
  ghost predicate Runs(s: State, steps: seq<Step>, s': State)
    decreases |steps|
  {
    if steps == [] then s' == s
    else Enabled(s, steps[0]) && Runs(Apply(s, steps[0]), steps[1..], s')
  }

  // ---------- Linearizability ----------

  function Replay(m: nat, order: seq<Entry>): int {
    if order == [] then 0 else After(m, Replay(m, order[..|order| - 1]), order[|order| - 1].op)
  }

  // Played one after the other, the calls give exactly the recorded replies.
  ghost predicate Legal(m: nat, order: seq<Entry>) {
    order == [] ||
    (Legal(m, order[..|order| - 1]) &&
     order[|order| - 1].reply == Answer(m, Replay(m, order[..|order| - 1]), order[|order| - 1].op))
  }

  // Calls are invoked once, return at most once, and only after their invocation.
  ghost predicate WellFormed(h: seq<Event>) {
    && (forall i, j :: 0 <= i < j < |h| && h[i].Invoked? == h[j].Invoked? ==> h[i].c != h[j].c)
    && (forall i, j :: 0 <= i < j < |h| && h[i].Returned? ==> h[i].c != h[j].c)
    && (forall e :: e in h && e.Returned? ==> Invoked(e.c, e.t, e.op) in h)
  }

  // Every returned call is in the order with its reply, nothing but invoked calls is, none twice.
  ghost predicate Accounts(h: seq<Event>, order: seq<Entry>) {
    && (forall i, j :: 0 <= i < j < |order| ==> order[i].c != order[j].c)
    && (forall e :: e in h && e.Returned? ==> Entry(e.c, e.t, e.op, e.reply) in order)
    && (forall x :: x in order ==> Invoked(x.c, x.t, x.op) in h)
  }

  // A call that returned before another was invoked comes before it.
  ghost predicate RespectsRealTime(h: seq<Event>, order: seq<Entry>) {
    forall i, j, p, q | 0 <= i < j < |h| && 0 <= p < |order| && 0 <= q < |order| ::
      h[i].Returned? && h[j].Invoked? && order[p].c == h[i].c && order[q].c == h[j].c ==> p < q
  }

  ghost predicate IsLinearization(m: nat, h: seq<Event>, order: seq<Entry>) {
    WellFormed(h) && Legal(m, order) && Accounts(h, order) && RespectsRealTime(h, order)
  }

  // ---------- The invariant ----------

  ghost predicate NotIn(order: seq<Entry>, c: nat) {
    forall x :: x in order ==> x.c != c
  }

  // At most one writer and never together with readers; holders are exactly the threads inside.
  ghost predicate LockInv(s: State) {
    && (s.lock.writer.Some? ==> s.lock.readers == {})
    && (s.lock.writer.Some? ==> s.lock.writer.value < |s.threads|)
    && (forall t :: t in s.lock.readers ==> t < |s.threads|)
    && (forall t :: 0 <= t < |s.threads| ==>
          var p := s.threads[t];
          (p.Holding() <==> s.lock.HeldBy(t)) &&
          (p.Holding() ==> (p.op.Get? <==> t in s.lock.readers)))
  }

  // What thread t in phase p can rely on.
  ghost predicate PhaseInv(value: int, order: seq<Entry>, t: nat, p: Phase) {
    match p
    case Idle => true
    case Called(c, _) => NotIn(order, c)
    case Inside(c, _) => NotIn(order, c)
    case Loaded(c, op, tmp) => NotIn(order, c) && p.Counting() && tmp == value
    case Stored(c, op) => p.Counting() && Entry(c, t, op, Value(value)) in order
    case Done(c, op, reply) => Entry(c, t, op, reply) in order && (op.Get? ==> reply == Value(value))
    case Released(c, op, reply) => Entry(c, t, op, reply) in order
  }

  ghost predicate Pending(h: seq<Event>, c: nat, t: nat, op: Op) {
    Invoked(c, t, op) in h && forall e :: e in h && e.Returned? ==> e.c != c
  }

  ghost predicate CallInv(s: State) {
    && (forall t :: 0 <= t < |s.threads| ==> PhaseInv(s.value, s.order, t, s.threads[t]))
    && (forall t :: 0 <= t < |s.threads| && !s.threads[t].Idle? ==>
          Pending(s.history, s.threads[t].c, t, s.threads[t].op))
    && (forall t, u :: 0 <= t < u < |s.threads| && !s.threads[t].Idle? && !s.threads[u].Idle? ==>
          s.threads[t].c != s.threads[u].c)
    && (forall e :: e in s.history ==> e.c < s.calls)
  }

  ghost predicate Inv(s: State) {
    LockInv(s) && CallInv(s) && s.value == Replay(s.m, s.order) && IsLinearization(s.m, s.history, s.order)
  }

  lemma InitInv(m: nat, n: nat)
    ensures Inv(Init(m, n))
  {
  }

  // ---------- What one event or one effect does to the history and the order ----------

  lemma WellFormedGrows(h: seq<Event>, e: Event)
    requires WellFormed(h)
    requires forall f :: f in h && (f.Returned? || e.Invoked?) ==> f.c != e.c
    requires e.Returned? ==> Invoked(e.c, e.t, e.op) in h
    ensures WellFormed(h + [e])
  {
    var h' := h + [e];
    assert forall i :: 0 <= i < |h| ==> h'[i] in h;
  }

  lemma AccountsGrows(h: seq<Event>, order: seq<Entry>, e: Event)
    requires Accounts(h, order)
    requires e.Returned? ==> Entry(e.c, e.t, e.op, e.reply) in order
    ensures Accounts(h + [e], order)
  {
  }

  lemma RealTimeGrows(h: seq<Event>, order: seq<Entry>, e: Event)
    requires RespectsRealTime(h, order)
    requires e.Invoked? ==> NotIn(order, e.c)
    ensures RespectsRealTime(h + [e], order)
  {
    var h' := h + [e];
    forall i, j, p, q | 0 <= i < j < |h'| && 0 <= p < |order| && 0 <= q < |order|
      ensures h'[i].Returned? && h'[j].Invoked? && order[p].c == h'[i].c && order[q].c == h'[j].c ==> p < q
    {
      if j < |h| {
        assert h'[i] == h[i] && h'[j] == h[j];
      }
    }
  }

  lemma InvocationRecorded(h: seq<Event>, order: seq<Entry>, e: Event)
    requires WellFormed(h) && Accounts(h, order) && RespectsRealTime(h, order)
    requires e.Invoked? && forall f :: f in h ==> f.c < e.c
    ensures WellFormed(h + [e]) && Accounts(h + [e], order) && RespectsRealTime(h + [e], order)
    ensures NotIn(order, e.c)
  {
    WellFormedGrows(h, e);
    AccountsGrows(h, order, e);
    RealTimeGrows(h, order, e);
    hide WellFormed, RespectsRealTime;
  }

  lemma ReturnRecorded(h: seq<Event>, order: seq<Entry>, x: Entry)
    requires WellFormed(h) && Accounts(h, order) && RespectsRealTime(h, order)
    requires Pending(h, x.c, x.t, x.op) && x in order
    ensures var h' := h + [Returned(x.c, x.t, x.op, x.reply)];
            WellFormed(h') && Accounts(h', order) && RespectsRealTime(h', order)
  {
    var e := Returned(x.c, x.t, x.op, x.reply);
    WellFormedGrows(h, e);
    AccountsGrows(h, order, e);
    RealTimeGrows(h, order, e);
    hide WellFormed, RespectsRealTime, Accounts;
  }

  lemma AccountsAppend(h: seq<Event>, order: seq<Entry>, x: Entry)
    requires Accounts(h, order)
    requires Pending(h, x.c, x.t, x.op) && NotIn(order, x.c)
    ensures Accounts(h, order + [x])
  {
    var order' := order + [x];
    assert forall i :: 0 <= i < |order| ==> order'[i] in order;
  }

  lemma RealTimeAppend(h: seq<Event>, order: seq<Entry>, x: Entry)
    requires RespectsRealTime(h, order)
    requires Pending(h, x.c, x.t, x.op)
    ensures RespectsRealTime(h, order + [x])
  {
    var order' := order + [x];
    forall i, j, p, q | 0 <= i < j < |h| && 0 <= p < |order'| && 0 <= q < |order'|
      ensures h[i].Returned? && h[j].Invoked? && order'[p].c == h[i].c && order'[q].c == h[j].c ==> p < q
    {
      assert h[i] in h;
      if p < |order| && q < |order| {
        assert order'[p] == order[p] && order'[q] == order[q];
      }
    }
  }

  lemma EffectRecorded(m: nat, h: seq<Event>, order: seq<Entry>, x: Entry)
    requires IsLinearization(m, h, order)
    requires Pending(h, x.c, x.t, x.op) && NotIn(order, x.c)
    requires x.reply == Answer(m, Replay(m, order), x.op)
    ensures IsLinearization(m, h, order + [x])
    ensures Replay(m, order + [x]) == After(m, Replay(m, order), x.op)
  {
    var order' := order + [x];
    assert order'[..|order'| - 1] == order && order'[|order|] == x;
    AccountsAppend(h, order, x);
    RealTimeAppend(h, order, x);
    hide Accounts, RespectsRealTime, WellFormed;
  }

  // An effect leaves what other threads rely on: those inside together with a get see the same value,
  // nobody is inside together with a writer.
  lemma OtherPhase(value: int, order: seq<Entry>, t: nat, p: Phase, value': int, x: Entry)
    requires PhaseInv(value, order, t, p) && (p.Idle? || p.c != x.c)
    requires value' == value || !p.Holding()
    ensures PhaseInv(value', order + [x], t, p)
  {
  }

  // ---------- Every step keeps the invariant ----------

  lemma LockKept(s: State, step: Step)
    requires Inv(s) && Enabled(s, step)
    ensures LockInv(Apply(s, step))
  {
  }

  // An event of one call leaves the other calls pending.
  lemma OthersStayPending(s: State, t: nat, e: Event)
    requires CallInv(s) && t < |s.threads| && (e.Returned? ==> !s.threads[t].Idle? && e.c == s.threads[t].c)
    ensures forall u :: 0 <= u < |s.threads| && u != t && !s.threads[u].Idle? ==>
              Pending(s.history + [e], s.threads[u].c, u, s.threads[u].op)
    ensures e.Returned? ==> e.c < s.calls
  {
    hide PhaseInv;
    assert e.Returned? ==> Pending(s.history, e.c, t, s.threads[t].op);
    forall u | 0 <= u < |s.threads| && u != t && !s.threads[u].Idle?
      ensures Pending(s.history + [e], s.threads[u].c, u, s.threads[u].op)
    {
      assert Pending(s.history, s.threads[u].c, u, s.threads[u].op);
    }
  }

  lemma CallKeeps(s: State, t: nat, op: Op)
    requires Inv(s) && Enabled(s, Call(t, op))
    ensures Inv(Apply(s, Call(t, op)))
  {
    hide Accounts, RespectsRealTime, WellFormed, LockInv, Replay, Legal;
    var e, s' := Invoked(s.calls, t, op), Apply(s, Call(t, op));
    LockKept(s, Call(t, op));
    InvocationRecorded(s.history, s.order, e);
    OthersStayPending(s, t, e);
    assert forall u :: 0 <= u < |s.threads| && !s.threads[u].Idle? ==>
        Pending(s.history, s.threads[u].c, u, s.threads[u].op) && s.threads[u].c < s.calls;
    assert Pending(s'.history, s.calls, t, op);
    hide Pending;
    assert CallInv(s');
  }

  lemma AcquireKeeps(s: State, t: nat)
    requires Inv(s) && Enabled(s, Acquire(t))
    ensures Inv(Apply(s, Acquire(t)))
  {
    LockKept(s, Acquire(t));
    hide IsLinearization, LockInv, Pending, Replay;
  }

  lemma ReleaseKeeps(s: State, t: nat)
    requires Inv(s) && Enabled(s, Release(t))
    ensures Inv(Apply(s, Release(t)))
  {
    LockKept(s, Release(t));
    hide IsLinearization, LockInv, Pending, Replay;
  }

  lemma PhaseOf(s: State, t: nat)
    requires Inv(s) && t < |s.threads|
    ensures PhaseInv(s.value, s.order, t, s.threads[t])
  {
  }

  lemma ReturnKeeps(s: State, t: nat)
    requires Inv(s) && Enabled(s, Return(t))
    ensures Inv(Apply(s, Return(t)))
  {
    hide Accounts, RespectsRealTime, WellFormed, LockInv, Replay, Legal, Pending;
    var p, s' := s.threads[t], Apply(s, Return(t));
    LockKept(s, Return(t));
    PhaseOf(s, t);
    ReturnRecorded(s.history, s.order, Entry(p.c, t, p.op, p.reply));
    hide PhaseInv;
    OthersStayPending(s, t, Returned(p.c, t, p.op, p.reply));
    assert CallInv(s');
  }

  lemma OthersKept(s: State, t: nat, x: Entry, value': int)
    requires LockInv(s) && CallInv(s) && t < |s.threads| && !s.threads[t].Idle? && s.threads[t].c == x.c
    requires value' == s.value || s.lock.writer == Some(t)
    ensures forall u :: 0 <= u < |s.threads| && u != t ==> PhaseInv(value', s.order + [x], u, s.threads[u])
  {
    forall u | 0 <= u < |s.threads| && u != t
      ensures PhaseInv(value', s.order + [x], u, s.threads[u])
    {
      OtherPhase(s.value, s.order, u, s.threads[u], value', x);
    }
  }

  // A step that only moves a thread on inside its critical section.
  lemma LocalKeeps(s: State, t: nat, p': Phase)
    requires Inv(s) && t < |s.threads| && s.threads[t].Holding() && p'.Holding()
    requires p'.c == s.threads[t].c && p'.op == s.threads[t].op && PhaseInv(s.value, s.order, t, p')
    ensures Inv(s.(threads := s.threads[t := p']))
  {
    hide IsLinearization, Replay, Pending, PhaseInv;
  }

  lemma LockMoved(s: State, t: nat, p': Phase)
    requires LockInv(s) && t < |s.threads| && s.threads[t].Holding() && p'.Holding() && p'.op == s.threads[t].op
    ensures LockInv(s.(threads := s.threads[t := p']))
    ensures s.threads[t].op.Get? || s.lock.writer == Some(t)
  {
  }

  lemma LockIgnores(s: State, s': State)
    requires LockInv(s) && s'.lock == s.lock && s'.threads == s.threads
    ensures LockInv(s')
  {
  }

  // A step inside the critical section that makes the call take effect.
  lemma EffectKeeps(s: State, t: nat, p': Phase, x: Entry)
    requires Inv(s) && t < |s.threads| && s.threads[t].Holding() && p'.Holding()
    requires p'.c == s.threads[t].c == x.c && p'.op == s.threads[t].op == x.op && x.t == t
    requires NotIn(s.order, x.c) && x.reply == Answer(s.m, s.value, x.op)
    requires PhaseInv(After(s.m, s.value, x.op), s.order + [x], t, p')
    ensures Inv(s.(value := After(s.m, s.value, x.op), threads := s.threads[t := p'], order := s.order + [x]))
  {
    hide IsLinearization, Replay, Pending, PhaseInv, LockInv, NotIn, Answer;
    var value' := After(s.m, s.value, x.op);
    EffectRecorded(s.m, s.history, s.order, x);
    LockMoved(s, t, p');
    OthersKept(s, t, x, value');
    hide After;
    var s' := s.(value := value', threads := s.threads[t := p'], order := s.order + [x]);
    assert LockInv(s') by { LockIgnores(s.(threads := s.threads[t := p']), s'); }
    assert CallInv(s');
  }

  lemma BodyKeeps(s: State, t: nat)
    requires Inv(s) && Enabled(s, Body(t))
    ensures Inv(Apply(s, Body(t)))
  {
    hide IsLinearization, Replay, Pending, LockInv, NotIn, Inv;
    var p, s' := s.threads[t], Apply(s, Body(t));
    PhaseOf(s, t);
    if p.Loaded? || (p.Inside? && !p.Counting()) {
      EffectKeeps(s, t, s'.threads[t], Entry(p.c, t, p.op, Answer(s.m, s.value, p.op)));
    } else {
      LocalKeeps(s, t, s'.threads[t]);
    }
  }

  lemma StepKeeps(s: State, step: Step)
    requires Inv(s) && Enabled(s, step)
    ensures Inv(Apply(s, step))
  {
    match step
    case Call(t, op) => CallKeeps(s, t, op);
    case Acquire(t) => AcquireKeeps(s, t);
    case Body(t) => BodyKeeps(s, t);
    case Release(t) => ReleaseKeeps(s, t);
    case Return(t) => ReturnKeeps(s, t);
  }
}
