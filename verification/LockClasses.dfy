/**
  The two classes as they are written, each call running from lock to unlock.  Acquisition is given
  by its blocking condition; what threads see of each other is the machine's business, and a call that
  no other thread disturbs is a run of the machine with the same outcome.
 */
module LockClasses {
  import opened Basics
  import opened LockMachine

  // What a thread does to the lock and, holding it, to the value.
  datatype Access = Locked(t: nat, how: Hold) | Unlocked(t: nat) | Read(t: nat) | Written(t: nat)

  class RWLock {
    var state: Lock
    ghost var trace: seq<Access>

    constructor ()
      ensures state.Free() && trace == []
    {
      state, trace := Lock({}, None), [];
    }

    // The caller reads, possibly with others; nobody writes.
    method ReadLock(t: nat)
      requires state.CanRead()
      modifies this
      ensures state.Exclusive() && state.HoldOf(t) == Reading
      ensures forall u :: u != t ==> state.HoldOf(u) == old(state).HoldOf(u) != Writing
      ensures trace == old(trace) + [Locked(t, Reading)]
    {
      state := state.ReadLock(t);
      trace := trace + [Locked(t, Reading)];
    }

    // The caller writes, and nobody else holds the lock.
    method WriteLock(t: nat)
      requires state.CanWrite()
      modifies this
      ensures state.Exclusive() && state.HoldOf(t) == Writing
      ensures forall u :: u != t ==> state.HoldOf(u) == old(state).HoldOf(u) == NoHold
      ensures trace == old(trace) + [Locked(t, Writing)]
    {
      state := state.WriteLock(t);
      trace := trace + [Locked(t, Writing)];
    }

    // The caller's own hold ends, whichever it was, and nobody else's; a lock let go by its writer, or by
    // its last reader, is free.
    method UnLock(t: nat)
      requires state.Exclusive() && state.HeldBy(t)
      modifies this
      ensures state.Exclusive() && state.HoldOf(t) == NoHold
      ensures forall u :: u != t ==> state.HoldOf(u) == old(state).HoldOf(u)
      ensures old(state).HoldOf(t) == Writing || old(state).readers == {t} ==> state.Free()
      ensures trace == old(trace) + [Unlocked(t)]
    {
      state := state.UnLock(t);
      trace := trace + [Unlocked(t)];
    }
  }

  // Who holds a lock, and how, is all there is to it.
  lemma SameHolds(a: Lock, b: Lock)
    requires a.Exclusive() && b.Exclusive() && forall u :: a.HoldOf(u) == b.HoldOf(u)
    ensures a == b
  {
    forall u: nat
      ensures u in a.readers <==> u in b.readers
      ensures a.writer == Some(u) <==> b.writer == Some(u)
    {
      assert a.HoldOf(u) == b.HoldOf(u);
    }
    if a.writer.Some? {
      assert b.writer == Some(a.writer.value);
    }
  }

  class LockedValue {
    const m: nat
    const lock: RWLock
    var value: int

    constructor (m: nat)
      ensures this.m == m && fresh(lock)
      ensures value == 0 && lock.state.Free()
    {
      this.m := m;
      lock := new RWLock();
      value := 0;
    }

    // The uses of _value: a load takes the lock, a store takes it for writing.
    method Load(t: nat) returns (v: int)
      requires lock.state.HeldBy(t)
      modifies lock`trace
      ensures v == value && lock.trace == old(lock.trace) + [Read(t)]
    {
      lock.trace := lock.trace + [Read(t)];
      v := value;
    }

    method Store(t: nat, v: int)
      requires lock.state.HoldOf(t) == Writing
      modifies this`value, lock`trace
      ensures value == v && lock.trace == old(lock.trace) + [Written(t)]
    {
      lock.trace := lock.trace + [Written(t)];
      value := v;
    }

    method Set(t: nat, v: int)
      requires lock.state.CanWrite()
      modifies this, lock
      ensures value == After(m, old(value), Op.Set(v)) && StandsFor(m, value, v) && lock.state == old(lock.state)
      ensures lock.trace == old(lock.trace) + [Locked(t, Writing), Written(t), Unlocked(t)]
    {
      lock.WriteLock(t);
      WrapStandsFor(m, v);
      Store(t, Wrap(m, v));
      lock.UnLock(t);
      SameHolds(lock.state, old(lock.state));
    }

    method Get(t: nat) returns (r: int)
      requires lock.state.CanRead() && t !in lock.state.readers
      modifies lock
      ensures Value(r) == Answer(m, value, Op.Get) && r == value && lock.state == old(lock.state)
      ensures lock.trace == old(lock.trace) + [Locked(t, Reading), Read(t), Unlocked(t)]
    {
      lock.ReadLock(t);
      r := Load(t);
      lock.UnLock(t);
      SameHolds(lock.state, old(lock.state));
    }

    method Increase(t: nat) returns (r: int)
      requires lock.state.CanWrite()
      modifies this, lock
      ensures value == After(m, old(value), Op.Increase) && Value(r) == Answer(m, old(value), Op.Increase)
      ensures StandsFor(m, value, old(value) + 1) && r == value && lock.state == old(lock.state)
      ensures lock.trace
              == old(lock.trace) + [Locked(t, Writing), Read(t), Written(t), Read(t), Unlocked(t)]
    {
      lock.WriteLock(t);
      var tmp := Load(t);
      WrapStandsFor(m, tmp + 1);
      Store(t, Wrap(m, tmp + 1));
      r := Load(t);
      lock.UnLock(t);
      SameHolds(lock.state, old(lock.state));
    }

    method Decrease(t: nat) returns (r: int)
      requires lock.state.CanWrite()
      modifies this, lock
      ensures value == After(m, old(value), Op.Decrease) && Value(r) == Answer(m, old(value), Op.Decrease)
      ensures StandsFor(m, value, old(value) - 1) && r == value && lock.state == old(lock.state)
      ensures lock.trace
              == old(lock.trace) + [Locked(t, Writing), Read(t), Written(t), Read(t), Unlocked(t)]
    {
      lock.WriteLock(t);
      var tmp := Load(t);
      WrapStandsFor(m, tmp - 1);
      Store(t, Wrap(m, tmp - 1));
      r := Load(t);
      lock.UnLock(t);
      SameHolds(lock.state, old(lock.state));
    }
  }

  // The steps of one call from its lock to its unlock.
  function CriticalSteps(t: nat, op: Op): seq<Step> {
    [Acquire(t), Body(t)] + (if op.Increase? || op.Decrease? then [Body(t), Body(t)] else []) + [Release(t)]
  }

  lemma RunOne(s: State, step: Step, rest: seq<Step>, s': State)
    requires Enabled(s, step) && Runs(Apply(s, step), rest, s')
    ensures Runs(s, [step] + rest, s')
  {
    assert ([step] + rest)[1..] == rest;
  }

  /** A call that no other thread disturbs runs through the machine exactly as the methods above say:
      same value, same reply, and the lock as before. */
  lemma UndisturbedCall(s: State, t: nat, op: Op, c: nat) returns (s': State)
    requires t < |s.threads| && s.threads[t] == Called(c, op)
    requires if op.Get? then s.lock.CanRead() && t !in s.lock.readers else s.lock.CanWrite()
    ensures Runs(s, CriticalSteps(t, op), s')
    ensures s'.value == After(s.m, s.value, op) && s'.lock == s.lock
    ensures s'.threads == s.threads[t := Released(c, op, Answer(s.m, s.value, op))]
  {
    var s1 := Apply(s, Acquire(t));
    var s2 := Apply(s1, Body(t));
    var last := [Release(t)];
    if op.Increase? || op.Decrease? {
      var s3 := Apply(s2, Body(t));
      var s4 := Apply(s3, Body(t));
      s' := Apply(s4, Release(t));
      RunOne(s3, Body(t), last, s');
      RunOne(s2, Body(t), [Body(t)] + last, s');
      RunOne(s1, Body(t), [Body(t)] + ([Body(t)] + last), s');
      RunOne(s, Acquire(t), [Body(t)] + ([Body(t)] + ([Body(t)] + last)), s');
      assert CriticalSteps(t, op) == [Acquire(t)] + ([Body(t)] + ([Body(t)] + ([Body(t)] + last)));
    } else {
      s' := Apply(s2, Release(t));
      RunOne(s1, Body(t), last, s');
      RunOne(s, Acquire(t), [Body(t)] + last, s');
      assert CriticalSteps(t, op) == [Acquire(t)] + ([Body(t)] + last);
    }
  }
}
