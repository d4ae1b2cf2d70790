/**
  The life of a Thread object: its two flags against what happens to the operating-system thread, over
  whole runs of start, join and detach followed by destruction.
 */
module ThreadLife {



  // The flags, and a count of what the system has really done for this object.
  datatype State = State(
    running: bool,
    detached: bool,
    held: bool,     // the thread in m_tid is there and not released
    starts: nat,    // threads created
    joins: nat,     // successful pthread_join
    detaches: nat,  // successful pthread_detach
    lost: nat,      // threads replaced in m_tid before they were released
    cancels: nat)   // pthread_cancel calls
  {
    // A thread's resources are released by joining or by detaching it.
    function Releases(): nat { joins + detaches }
  }

  const FRESH := State(false, false, false, 0, 0, 0, 0, 0)

  // A method call with the result its system call gives (0 is success), should it be made.
  datatype Action = Start(result: int) | Join(result: int) | Detach(result: int)

  // The system refuses to release a thread that is not there or already released.
  predicate Lawful(s: State, a: Action) {
    (a.Join? || a.Detach?) && a.result == 0 ==> s.held
  }

  function AfterStart(s: State, result: int): State {
    if result == 0 then
      s.(running := true, held := true, starts := s.starts + 1, lost := s.lost + if s.held then 1 else 0)
    else s
  }

  function AfterJoin(s: State, result: int): State {
    if s.running && result == 0 then
      s.(running := false, detached := true, held := false, joins := s.joins + 1)
    else s
  }

  function AfterDetach(s: State, result: int): State {
    if s.running && !s.detached && result == 0 then
      s.(detached := true, held := false, detaches := s.detaches + 1)
    else s
  }

  // The destructor: a last-resort detach whose result is ignored, then a cancel.
  function AfterDestroy(s: State, detachResult: int): State {
    var s1 := if s.running && !s.detached && detachResult == 0 then
                s.(held := false, detaches := s.detaches + 1)
              else s;
    if s.running then s1.(cancels := s1.cancels + 1) else s1
  }

  function After(s: State, a: Action): State {
    match a
    case Start(r) => AfterStart(s, r)
    case Join(r) => AfterJoin(s, r)
    case Detach(r) => AfterDetach(s, r)
  }

  function Run(s: State, actions: seq<Action>): State {
    if actions == [] then s else After(Run(s, actions[..|actions| - 1]), actions[|actions| - 1])
  }

  predicate LawfulRun(s: State, actions: seq<Action>) {
    actions == [] ||
    (LawfulRun(s, actions[..|actions| - 1]) && Lawful(Run(s, actions[..|actions| - 1]), actions[|actions| - 1]))
  }

  // ---------- The class ----------

  class Thread {
    var m_running: int
    var m_detached: int
    ghost var held: bool
    ghost var starts: nat
    ghost var joins: nat
    ghost var detaches: nat
    ghost var lost: nat
    ghost var cancels: nat

    ghost predicate Valid()
      reads this
    {
      m_running in {0, 1} && m_detached in {0, 1}
    }

    ghost function View(): State
      reads this
    {
      State(m_running == 1, m_detached == 1, held, starts, joins, detaches, lost, cancels)
    }

    constructor ()
      ensures Valid() && View() == FRESH
    {
      m_running, m_detached := 0, 0;
      held, starts, joins, detaches, lost, cancels := false, 0, 0, 0, 0, 0;
    }

    // `created` is what pthread_create returns.
    method Start(created: int) returns (result: int)
      requires Valid()
      modifies this
      ensures Valid() && View() == AfterStart(old(View()), created) && result == created
    {
      result := created;
      if result == 0 {
        m_running := 1;
        starts, lost, held := starts + 1, lost + (if held then 1 else 0), true;
      }
    }

    // `joined` is what pthread_join returns, if it is called.
    method Join(joined: int) returns (result: int)
      requires Valid()
      modifies this
      ensures Valid() && View() == AfterJoin(old(View()), joined)
      ensures result == if old(View()).running then joined else -1
    {
      result := -1;
      if m_running == 1 {
        result := joined;
        if result == 0 {
          joins, held := joins + 1, false;
          m_detached := 1;
          m_running := 0;
        }
      }
    }

    // `released` is what pthread_detach returns, if it is called.
    method Detach(released: int) returns (result: int)
      requires Valid()
      modifies this
      ensures Valid() && View() == AfterDetach(old(View()), released)
      ensures result == if old(View()).running && !old(View()).detached then released else -1
    {
      result := -1;
      if m_running == 1 && m_detached == 0 {
        result := released;
        if result == 0 {
          detaches, held := detaches + 1, false;
          m_detached := 1;
        }
      }
    }

    // The destructor's body.
    method Destroy(released: int)
      requires Valid()
      modifies this
      ensures View() == AfterDestroy(old(View()), released)
    {
      if m_running == 1 && m_detached == 0 {
        if released == 0 {
          detaches, held := detaches + 1, false;
        }
      }
      if m_running == 1 {
        cancels := cancels + 1;
      }
    }
  }

  // ---------- Whole runs ----------

  // What the flags say about a thread that was started at most once.
  predicate FlagsTell(s: State) {
    s.starts <= 1 && s.cancels == 0 && s.Releases() <= s.starts &&
    (s.running <==> s.starts == 1 && s.joins == 0) &&
    (s.detached <==> s.Releases() == 1)
  }

  // Over any number of starts, every thread is released, lost or still held, and a detached flag tells only
  // that some thread was released once.
  predicate Counted(s: State) {
    s.starts == s.Releases() + s.lost + (if s.held then 1 else 0) &&
    (s.lost > 0 ==> s.lost < s.starts) &&
    (s.detached <==> s.Releases() > 0) && s.cancels == 0 &&
    (s.held ==> s.running) && (s.running && !s.held ==> s.detached) &&
    (s.starts <= 1 ==> (s.running <==> s.starts == 1 && s.joins == 0))
  }

  lemma CountedStep(s: State, a: Action)
    requires Counted(s) && Lawful(s, a)
    ensures Counted(After(s, a))
  {
  }

  lemma {:induction false} EveryThreadCounted(actions: seq<Action>)
    requires LawfulRun(FRESH, actions)
    ensures Counted(Run(FRESH, actions))
  {
    if actions != [] {
      var front, last := actions[..|actions| - 1], actions[|actions| - 1];
      assert LawfulRun(FRESH, front) && Lawful(Run(FRESH, front), last);
      EveryThreadCounted(front);
      CountedStep(Run(FRESH, front), last);
      hide Counted, After, Lawful, LawfulRun;
    }
  }

  lemma FlagsTellTheTruth(actions: seq<Action>)
    requires LawfulRun(FRESH, actions) && Run(FRESH, actions).starts <= 1
    ensures FlagsTell(Run(FRESH, actions))
  {
    hide Run, LawfulRun;
    EveryThreadCounted(actions);
  }

  /** Whatever the order of the calls and whichever of them fail, an object started at most once releases
      its thread at most once, and exactly once if the thread was started and the destructor's own detach
      succeeds when it is tried; the destructor cancels exactly when the thread was started and never joined. */
  lemma ReleasedOnce(actions: seq<Action>, detachResult: int)
    requires LawfulRun(FRESH, actions) && Run(FRESH, actions).starts <= 1
    ensures var before, after := Run(FRESH, actions), AfterDestroy(Run(FRESH, actions), detachResult);
            after.Releases() <= 1 &&
            (before.starts == 0 ==> after.Releases() == 0) &&
            (before.starts == 1 ==> (after.Releases() == 1 <==> detachResult == 0 || before.Releases() == 1)) &&
            (after.cancels == 1 <==> before.starts == 1 && before.joins == 0) && after.cancels <= 1
  {
    FlagsTellTheTruth(actions);
  }

  /** The last-resort detach is tried exactly when the thread in m_tid is unreleased and no thread before it
      was released; so it never touches a released thread, and the system would grant it. */
  lemma LastDetachIsLawful(actions: seq<Action>)
    requires LawfulRun(FRESH, actions)
    ensures var s := Run(FRESH, actions);
            s.running && !s.detached <==> s.held && s.Releases() == 0
  {
    EveryThreadCounted(actions);
  }

  lemma DestroyCounted(s: State, detachResult: int)
    requires Counted(s)
    ensures AfterDestroy(s, detachResult).Releases() == s.starts
            <==> s.lost == 0 && (s.held ==> s.starts == 1 && detachResult == 0)
    ensures AfterDestroy(s, 0).Releases() == s.starts <==> s.starts <= 1 || s.Releases() == s.starts
  {
  }

  /** Any number of starts: when the object is destroyed, all its threads are released if and only if no
      start replaced an unreleased thread and the thread in m_tid, if unreleased, is the object's only one
      and the last-resort detach succeeds. */
  lemma AllReleased(actions: seq<Action>, detachResult: int)
    requires LawfulRun(FRESH, actions)
    ensures var s := Run(FRESH, actions);
            AfterDestroy(s, detachResult).Releases() == s.starts
            <==> s.lost == 0 && (s.held ==> s.starts == 1 && detachResult == 0)
    ensures var s := Run(FRESH, actions);
            AfterDestroy(s, 0).Releases() == s.starts <==> s.starts <= 1 || s.Releases() == s.starts
  {
    EveryThreadCounted(actions);
    DestroyCounted(Run(FRESH, actions), detachResult);
    DestroyCounted(Run(FRESH, actions), 0);
    hide *;
  }

  /** What a call does for the thread in m_tid: a successful start makes it a new one; a successful join
      releases an unreleased one, a successful detach does so unless a thread was released before; calls
      that fail change nothing, and the destructor cancels just what runs. */
  lemma CallsTakeEffect(actions: seq<Action>, a: Action)
    requires LawfulRun(FRESH, actions)
    ensures var s, next := Run(FRESH, actions), After(Run(FRESH, actions), a);
            (a.result != 0 ==> next == s) &&
            (a == Action.Start(0) ==> next.starts == s.starts + 1 && next.held && next.running) &&
            (a == Action.Join(0) && s.held ==>
               next.Releases() == s.Releases() + 1 && !next.held && !next.running) &&
            (a == Action.Detach(0) && s.held && s.Releases() == 0 ==>
               next.Releases() == 1 && !next.held && next.running) &&
            (a == Action.Detach(0) && s.held && s.Releases() > 0 ==> next == s)
    ensures var s := Run(FRESH, actions);
            AfterDestroy(s, a.result).cancels == if s.running then 1 else 0
  {
    EveryThreadCounted(actions);
    hide Run, LawfulRun;
  }

  /** The reason: once a thread was released, only a join releases another one.  Neither detach nor the
      destructor does, whatever the system would answer. */
  lemma OnlyJoinReleasesAgain(actions: seq<Action>, a: Action, result: int)
    requires LawfulRun(FRESH, actions) && Run(FRESH, actions).Releases() > 0
    ensures var s := Run(FRESH, actions);
            (After(s, a).Releases() > s.Releases() <==> a == Action.Join(0) && s.running) &&
            AfterDestroy(s, result).Releases() == s.Releases()
  {
    EveryThreadCounted(actions);
  }

  // One more lawful action.
  lemma Then(s: State, actions: seq<Action>, a: Action) returns (more: seq<Action>)
    requires LawfulRun(s, actions) && Lawful(Run(s, actions), a)
    ensures more == actions + [a] && LawfulRun(s, more) && Run(s, more) == After(Run(s, actions), a)
    ensures actions == [] ==> Run(s, actions) == s
  {
    more := actions + [a];
    assert more[..|more| - 1] == actions;
  }

  /** For instance: a thread started after a join, or over an unreleased one, is not made up for by the
      destructor, but a restarted thread that is joined like the first is released. */
  lemma RestartLeaks()
    ensures var again := [Action.Start(0), Action.Join(0), Action.Start(0)];
            LawfulRun(FRESH, again) && Run(FRESH, again).starts == 2 &&
            AfterDestroy(Run(FRESH, again), 0).Releases() == 1
    ensures var over := [Action.Start(0), Action.Start(0)];
            LawfulRun(FRESH, over) && Run(FRESH, over).starts == 2 &&
            AfterDestroy(Run(FRESH, over), 0).Releases() == 1
    ensures var joined := [Action.Start(0), Action.Join(0), Action.Start(0), Action.Join(0)];
            LawfulRun(FRESH, joined) && Run(FRESH, joined).starts == 2 &&
            AfterDestroy(Run(FRESH, joined), 0).Releases() == 2
  {
    var one := Then(FRESH, [], Action.Start(0));
    var over := Then(FRESH, one, Action.Start(0));
    var two := Then(FRESH, one, Action.Join(0));
    var again := Then(FRESH, two, Action.Start(0));
    var joined := Then(FRESH, again, Action.Join(0));
    hide Run, LawfulRun;
    assert over == [Action.Start(0), Action.Start(0)];
    assert again == [Action.Start(0), Action.Join(0), Action.Start(0)];
    assert joined == [Action.Start(0), Action.Join(0), Action.Start(0), Action.Join(0)];
  }
}
