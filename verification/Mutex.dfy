/**
  `native_mutex_*` on Windows: a critical section, which its owner may enter again,
  made to look like a mutex that is not reentrant.

  The first part is the protocol as a machine of atomic steps, for any number of
  threads. The second part is the mutex object with the bodies of the functions.
 */
module Mutex {
  import opened Wrappers
  import opened Errno

  // ---------- the operating system primitive ----------

  /** A critical section. Leaving it without owning it corrupts it for good. */
  datatype CriticalSection =
    | Section(owner: Option<nat>, recursionCount: nat)
    | Corrupt

  const UNOWNED := Section(None, 0)

  /** `None` means that the caller has to wait, or that `TryEnterCriticalSection` fails. */
  function Enter(cs: CriticalSection, t: nat): Option<CriticalSection> {
    match cs
    case Section(None, n) => Some(Section(Some(t), n + 1))
    case Section(Some(o), n) => if o == t then Some(Section(Some(t), n + 1)) else None
    case Corrupt => Some(Corrupt)
  }

  function Leave(cs: CriticalSection, t: nat): CriticalSection {
    match cs
    case Section(Some(o), n) =>
      if o != t || n == 0 then Corrupt
      else if n == 1 then UNOWNED
      else Section(Some(t), n - 1)
    case _ => Corrupt
  }

  // ---------- threads and steps ----------

  /**
    Where a thread stands inside a call. A `trylock` that entered the section
    remembers, for the proofs, what the section was just before.
   */
  datatype Pc =
    | Idle
    | Checking(before: CriticalSection)   // trylock: about to read RecursionCount
    | Undoing(before: CriticalSection)    // trylock: about to leave again

  /** `holding`: the thread was told that it has the mutex, and has not given it back. */
  datatype Thread = Thread(pc: Pc, holding: bool)

  datatype State = State(threads: seq<Thread>, cs: CriticalSection)

  datatype Action = Lock | TryLock | Unlock | Continue

  /** What a step means to the callers: `TryTook` is a `trylock` that is going to return 0. */
  datatype Event = Silent | Locked | TryTook | TryReturned(code: int) | Unlocked

  datatype Step = Step(next: State, event: Event)

  function Init(n: nat): State {
    State(seq(n, i => Thread(Idle, false)), UNOWNED)
  }

  function Put(s: State, t: nat, pc: Pc, holding: bool, cs: CriticalSection): State
    requires t < |s.threads|
  {
    State(s.threads[t := Thread(pc, holding)], cs)
  }

  /**
    One atomic step of thread `t`; `None` when the thread cannot make it now. A
    thread unlocks only what it holds; `relock` says whether a thread may make a
    blocking `lock` call on the mutex it holds.
   */
  function Next(s: State, t: nat, a: Action, relock: bool): Option<Step>
    requires t < |s.threads|
  {
    var th := s.threads[t];
    match (a, th.pc)
    case (Lock, Idle) =>
      if th.holding && !relock then None
      else
        (match Enter(s.cs, t)
         case None => None
         case Some(cs) => Some(Step(Put(s, t, Idle, true, cs), Locked)))
    case (TryLock, Idle) =>
      (match Enter(s.cs, t)
       case None => Some(Step(s, TryReturned(EBUSY)))
       case Some(cs) =>
         Some(Step(Put(s, t, Checking(s.cs), th.holding, cs), if s.cs == UNOWNED then TryTook else Silent)))
    case (Unlock, Idle) =>
      if !th.holding then None
      else Some(Step(Put(s, t, Idle, false, Leave(s.cs, t)), Unlocked))
    case (Continue, Checking(before)) =>
      // only the owner reads the count here, so the read is atomic with the branch
      if s.cs.Section? && s.cs.recursionCount > 1 then Some(Step(Put(s, t, Undoing(before), th.holding, s.cs), Silent))
      else Some(Step(Put(s, t, Idle, true, s.cs), TryReturned(0)))
    case (Continue, Undoing(before)) =>
      Some(Step(Put(s, t, Idle, th.holding, Leave(s.cs, t)), TryReturned(EBUSY)))
    case _ => None
  }

  // ---------- the mutex the callers should see ----------

  /** Who has the mutex: the thread holding it, or the one whose `trylock` is going to succeed. */
  function Holder(s: State): Option<nat> {
    if s.cs.Section? then s.cs.owner else None
  }

  /**
    The moves of a mutex that is not reentrant and knows its holder. Taking it is
    possible only when it is free, and giving it back only for its holder.
   */
  predicate AbstractStep(h: Option<nat>, t: nat, e: Event, h': Option<nat>) {
    match e
    case Silent => h' == h
    case Locked => h == None && h' == Some(t)
    case TryTook => h == None && h' == Some(t)
    case TryReturned(code) =>
      h' == h && (code == 0 || code == EBUSY) && (code == 0 ==> h == Some(t)) && (code == EBUSY ==> h != None)
    case Unlocked => h == Some(t) && h' == None
  }

  // ---------- invariant ----------

  /** The thread's trylock found the section free. */
  predicate Winning(th: Thread) {
    th.pc.Checking? && th.pc.before == UNOWNED
  }

  /** The thread's trylock entered a section the thread already owned. */
  predicate Doubling(th: Thread, t: nat) {
    (th.pc.Checking? || th.pc.Undoing?) && th.pc.before == Section(Some(t), 1)
  }

  predicate ThreadOk(s: State, t: nat)
    requires t < |s.threads|
  {
    var th := s.threads[t];
    && (th.pc.Checking? ==> Winning(th) || Doubling(th, t))
    && (th.pc.Undoing? ==> Doubling(th, t))
    && (Winning(th) ==> !th.holding)
    && (Doubling(th, t) ==> th.holding)
    && (th.holding || Winning(th) <==> s.cs.Section? && s.cs.owner == Some(t))
    && (s.cs.Section? && s.cs.owner == Some(t) ==> s.cs.recursionCount == if Doubling(th, t) then 2 else 1)
  }

  ghost predicate Inv(s: State) {
    && s.cs.Section?
    && (forall t :: 0 <= t < |s.threads| ==> ThreadOk(s, t))
    && (s.cs.owner == None ==> s.cs.recursionCount == 0)
    && (s.cs.owner.Some? ==> s.cs.owner.value < |s.threads|)
  }

  /** Every step of threads that do not relock keeps the invariant, and is a step of the mutex. */
  lemma StepRefines(s: State, t: nat, a: Action)
    requires Inv(s) && t < |s.threads| && Next(s, t, a, false).Some?
    ensures var st := Next(s, t, a, false).value;
            Inv(st.next) && AbstractStep(Holder(s), t, st.event, Holder(st.next))
  {
    var s' := Next(s, t, a, false).value.next;
    assert ThreadOk(s, t);
    forall u | 0 <= u < |s'.threads|
      ensures ThreadOk(s', u)
    {
      assert ThreadOk(s, u);
    }
  }

  /**
    `trylock` returns 0 exactly when the section was free at its attempt to enter;
    when it returns EBUSY, the section is as it was at that attempt.
   */
  lemma TryLockReturns(s: State, t: nat, a: Action)
    requires Inv(s) && t < |s.threads| && Next(s, t, a, false).Some?
    requires Next(s, t, a, false).value.event.TryReturned?
    ensures var st := Next(s, t, a, false).value;
            var before := if a == TryLock then s.cs else s.threads[t].pc.before;
            && (st.event.code == 0 <==> before == UNOWNED)
            && (st.event.code == EBUSY <==> before.Section? && before.owner != None)
            && (st.event.code == EBUSY ==>
                  st.next.cs == before && st.next.threads[t] == Thread(Idle, s.threads[t].holding))
            && (st.event.code == 0 ==> st.next.cs == Section(Some(t), 1) && st.next.threads[t] == Thread(Idle, true))
  {
    assert ThreadOk(s, t);
  }

  /** While a thread is inside `trylock`, no other thread's step touches the section. */
  lemma OthersKeepOut(s: State, t: nat, u: nat, a: Action)
    requires Inv(s) && t < |s.threads| && u < |s.threads| && t != u
    requires s.threads[t].pc != Idle && Next(s, u, a, false).Some?
    ensures Next(s, u, a, false).value.next.cs == s.cs
  {
    assert ThreadOk(s, t);
    assert ThreadOk(s, u);
  }

  // ---------- which steps are possible ----------

  /**
    When a thread that is not inside a call can begin one, and what that does.
    `lock` is possible exactly when the section is free, or with a relock held by
    the thread; `trylock` always; `unlock` exactly when the thread holds the mutex.
   */
  lemma BeginExactly(s: State, t: nat, a: Action, relock: bool)
    requires Inv(s) && t < |s.threads| && s.threads[t].pc == Idle
    ensures var th, st := s.threads[t], Next(s, t, a, relock);
            match a
            case Lock =>
              && (st.Some? <==> s.cs == UNOWNED || (relock && th.holding))
              && (st.Some? ==>
                    st.value == Step(Put(s, t, Idle, true, Section(Some(t), s.cs.recursionCount + 1)), Locked))
            case TryLock =>
              && st.Some?
              && (s.cs == UNOWNED ==>
                    st.value == Step(Put(s, t, Checking(s.cs), false, Section(Some(t), 1)), TryTook))
              && (th.holding ==> st.value == Step(Put(s, t, Checking(s.cs), true, Section(Some(t), 2)), Silent))
              && (s.cs != UNOWNED && !th.holding ==> st.value == Step(s, TryReturned(EBUSY)))
            case Unlock =>
              && (st.Some? <==> th.holding)
              && (st.Some? ==> st.value == Step(Put(s, t, Idle, false, UNOWNED), Unlocked))
            case Continue => st.None?
  {
    assert ThreadOk(s, t);
  }

  /**
    A thread inside `trylock` can go on at any time, and make no other call. It
    returns 0 from a section that it found free, and otherwise leaves it again and
    returns EBUSY.
   */
  lemma ContinueExactly(s: State, t: nat, a: Action, relock: bool)
    requires Inv(s) && t < |s.threads| && s.threads[t].pc != Idle
    ensures Next(s, t, a, relock).Some? <==> a == Continue
    ensures var th, st := s.threads[t], Next(s, t, Continue, relock).value;
            && (Winning(th) ==> st == Step(Put(s, t, Idle, true, s.cs), TryReturned(0)))
            && (!Winning(th) && th.pc.Checking? ==> st == Step(Put(s, t, Undoing(th.pc.before), true, s.cs), Silent))
            && (th.pc.Undoing? ==> st == Step(Put(s, t, Idle, true, th.pc.before), TryReturned(EBUSY)))
  {
    assert ThreadOk(s, t);
  }

  /** No other thread's step moves a thread. */
  lemma OthersLeave(s: State, t: nat, u: nat, a: Action, relock: bool)
    requires t < |s.threads| && u < |s.threads| && t != u && Next(s, u, a, relock).Some?
    ensures var s' := Next(s, u, a, relock).value.next;
            |s'.threads| == |s.threads| && s'.threads[t] == s.threads[t]
  {
  }

  /** `n` statements of a call in progress, made by its thread alone. */
  function Solo(s: State, t: nat, n: nat): Option<Step>
    requires t < |s.threads| && n > 0
    decreases n
  {
    match Next(s, t, Continue, false)
    case None => None
    case Some(st) => if n == 1 then Some(st) else if t < |st.next.threads| then Solo(st.next, t, n - 1) else None
  }

  /**
    `trylock` always comes to an end, in the steps of its own thread: with 0 and the
    mutex if the section was free, and with EBUSY and everything as it was if not.
   */
  lemma TryLockCompletes(s: State, t: nat)
    requires Inv(s) && t < |s.threads| && s.threads[t].pc == Idle
    ensures Next(s, t, TryLock, false).Some?
    ensures var st := Next(s, t, TryLock, false).value;
            && t < |st.next.threads|
            && (s.cs == UNOWNED ==>
                  Solo(st.next, t, 1) == Some(Step(Put(s, t, Idle, true, Section(Some(t), 1)), TryReturned(0))))
            && (s.threads[t].holding ==> Solo(st.next, t, 2) == Some(Step(s, TryReturned(EBUSY))))
            && (s.cs != UNOWNED && !s.threads[t].holding ==> st == Step(s, TryReturned(EBUSY)))
  {
    assert ThreadOk(s, t);
    BeginExactly(s, t, TryLock, false);
    StepRefines(s, t, TryLock);
    var s1 := Next(s, t, TryLock, false).value.next;
    if s.cs == UNOWNED {
      ContinueExactly(s1, t, Continue, false);
      assert s1.threads[t := Thread(Idle, true)] == s.threads[t := Thread(Idle, true)];
    } else if s.threads[t].holding {
      ContinueExactly(s1, t, Continue, false);
      StepRefines(s1, t, Continue);
      var s2 := Next(s1, t, Continue, false).value.next;
      ContinueExactly(s2, t, Continue, false);
      assert s2.threads[t := Thread(Idle, true)] == s.threads;
    }
  }

  // ---------- every run ----------

  /** An interleaving: which thread moves, and with what. */
  type Schedule = seq<(nat, Action)>

  /** The state after a schedule; `None` when one of its steps is not possible. */
  function Run(n: nat, sched: Schedule, relock: bool): Option<State> {
    if sched == [] then Some(Init(n))
    else
      var (t, a) := sched[|sched| - 1];
      match Run(n, sched[..|sched| - 1], relock)
      case None => None
      case Some(s) =>
        if t < |s.threads| then
          (match Next(s, t, a, relock)
           case None => None
           case Some(st) => Some(st.next))
        else None
  }

  /** A run goes on with a step exactly when a thread there is can make it. */
  lemma RunGoesOn(n: nat, sched: Schedule, t: nat, a: Action, relock: bool)
    requires Run(n, sched, relock).Some?
    ensures |Run(n, sched, relock).value.threads| == n
    ensures Run(n, sched + [(t, a)], relock).Some? <==> t < n && Next(Run(n, sched, relock).value, t, a, relock).Some?
    ensures Run(n, sched + [(t, a)], relock).Some? ==>
              Run(n, sched + [(t, a)], relock).value == Next(Run(n, sched, relock).value, t, a, relock).value.next
  {
    ThreadsStay(n, sched, relock);
    LastOf(sched, (t, a));
  }

  lemma LastOf(sched: Schedule, last: (nat, Action))
    ensures var longer := sched + [last];
            longer != [] && longer[..|longer| - 1] == sched && longer[|longer| - 1] == last
  {
  }

  lemma StepKeepsThreads(s: State, t: nat, a: Action, relock: bool)
    requires t < |s.threads| && Next(s, t, a, relock).Some?
    ensures |Next(s, t, a, relock).value.next.threads| == |s.threads|
  {
  }

  lemma {:induction false} ThreadsStay(n: nat, sched: Schedule, relock: bool)
    requires Run(n, sched, relock).Some?
    ensures |Run(n, sched, relock).value.threads| == n
    decreases |sched|
  {
    if sched != [] {
      ThreadsStay(n, sched[..|sched| - 1], relock);
      var (t, a) := sched[|sched| - 1];
      StepKeepsThreads(Run(n, sched[..|sched| - 1], relock).value, t, a, relock);
    }
  }

  lemma {:induction false} RunInv(n: nat, sched: Schedule)
    requires Run(n, sched, false).Some?
    ensures Inv(Run(n, sched, false).value)
    decreases |sched|
  {
    if sched != [] {
      var (t, a) := sched[|sched| - 1];
      RunInv(n, sched[..|sched| - 1]);
      StepRefines(Run(n, sched[..|sched| - 1], false).value, t, a);
    }
  }

  /** The same in every run: a `trylock` that returns in the next step was right. */
  lemma RunTryLock(n: nat, sched: Schedule, t: nat, a: Action)
    requires Run(n, sched, false).Some? && t < |Run(n, sched, false).value.threads|
    requires var st := Next(Run(n, sched, false).value, t, a, false); st.Some? && st.value.event.TryReturned?
    ensures var s := Run(n, sched, false).value;
            var st := Next(s, t, a, false).value;
            var before := if a == TryLock then s.cs else s.threads[t].pc.before;
            && AbstractStep(Holder(s), t, st.event, Holder(st.next))
            && (st.event.code == 0 <==> before == UNOWNED)
            && (st.event.code == EBUSY ==> st.next.cs == before && before.owner != None)
  {
    RunInv(n, sched);
    var s := Run(n, sched, false).value;
    StepRefines(s, t, a);
    TryLockReturns(s, t, a);
  }

  /**
    In every reachable state at most one thread holds the mutex, and the section is
    not corrupt. A holder between calls owns it at count 1, whatever the other
    threads do; once no thread is inside a call, the section is free if nobody holds.
   */
  lemma RunIsSafe(n: nat, sched: Schedule)
    requires Run(n, sched, false).Some?
    ensures var s := Run(n, sched, false).value;
            && s.cs.Section?
            && (forall t, u :: 0 <= t < |s.threads| && 0 <= u < |s.threads| ==>
                  s.threads[t].holding && s.threads[u].holding ==> t == u)
            && (forall t :: 0 <= t < |s.threads| && s.threads[t].pc == Idle && s.threads[t].holding ==>
                  s.cs == Section(Some(t), 1))
            && ((forall t :: 0 <= t < |s.threads| ==> s.threads[t].pc == Idle) ==>
                  && s.cs.recursionCount == (if s.cs.owner == None then 0 else 1)
                  && forall t :: 0 <= t < |s.threads| ==> (s.threads[t].holding <==> s.cs.owner == Some(t)))
  {
    RunInv(n, sched);
    var s := Run(n, sched, false).value;
    forall t | 0 <= t < |s.threads|
      ensures s.threads[t].holding ==> s.cs.owner == Some(t)
      ensures s.threads[t].pc == Idle ==> (s.threads[t].holding <==> s.cs.owner == Some(t))
      ensures s.threads[t].pc == Idle && s.threads[t].holding ==> s.cs == Section(Some(t), 1)
    {
      assert ThreadOk(s, t);
    }
    if s.cs.owner.Some? {
      assert ThreadOk(s, s.cs.owner.value);
    }
  }

  /**
    The blocking call has no such check: when it returns, it has acted as a mutex
    that is not reentrant exactly when the caller did not hold it already.
   */
  lemma RelockBreaks(s: State, t: nat)
    requires Inv(s) && t < |s.threads| && Next(s, t, Lock, true).Some?
    ensures var st := Next(s, t, Lock, true).value;
            AbstractStep(Holder(s), t, st.event, Holder(st.next)) <==> !s.threads[t].holding
    ensures var st := Next(s, t, Lock, true).value;
            st.next.cs.Section? && st.next.cs.recursionCount == (if s.threads[t].holding then 2 else 1)
  {
    assert ThreadOk(s, t);
  }

  /** A thread that locks twice without trying comes to hold the mutex at count 2. */
  lemma RelockRun()
    ensures Run(1, [(0, Lock), (0, Lock)], true) == Some(State([Thread(Idle, true)], Section(Some(0), 2)))
  {
    var once: Schedule := [(0, Lock)];
    var twice: Schedule := [(0, Lock), (0, Lock)];
    var s0, s1 := Init(1), State([Thread(Idle, true)], Section(Some(0), 1));
    assert once[..0] == [] && twice[..1] == once;
    var held := Thread(Idle, true);
    assert s0.threads[0 := held] == s1.threads[0 := held] == s1.threads;
    assert Next(s0, 0, Lock, true) == Some(Step(s1, Locked));
    assert Run(1, [], true) == Some(s0);
    assert Run(1, once, true) == Some(s1);
    assert Next(s1, 0, Lock, true) == Some(Step(State([Thread(Idle, true)], Section(Some(0), 2)), Locked));
  }

  // ---------- the mutex object ----------

  class NativeMutex {
    var section: CriticalSection

    /** Between calls of threads that do not relock. */
    ghost predicate Valid()
      reads this
    {
      section.Section? && section.recursionCount == if section.owner == None then 0 else 1
    }

    constructor ()
      ensures Valid() && section == UNOWNED
    {
      section := UNOWNED;
    }

    /** Between calls of any threads. */
    ghost predicate Consistent()
      reads this
    {
      section.Section? && (section.owner == None <==> section.recursionCount == 0)
    }

    /** Returns once no other thread has the mutex; its owner gets in again. */
    method Lock(self: nat) returns (r: int)
      requires Consistent() && (section.owner == None || section.owner == Some(self))
      modifies this
      ensures Consistent() && r == 0 && section == Section(Some(self), old(section.recursionCount) + 1)
      ensures Valid() <==> old(section) == UNOWNED
    {
      section := Enter(section, self).value;
      r := 0;
    }

    method TryLock(self: nat) returns (r: int)
      requires Consistent()
      modifies this
      ensures Consistent() && (old(Valid()) ==> Valid())
      ensures r == (if old(section) == UNOWNED then 0 else EBUSY)
      ensures section == (if r == 0 then Section(Some(self), 1) else old(section))
    {
      var got := Enter(section, self);
      if got.Some? {
        section := got.value;
        if section.recursionCount > 1 {
          section := Leave(section, self);
          return EBUSY;
        }
        return 0;
      }
      r := EBUSY;
    }

    method Unlock(self: nat) returns (r: int)
      requires Consistent() && section.owner == Some(self)
      modifies this
      ensures Consistent() && r == 0
      ensures section == if old(Valid()) then UNOWNED else Section(Some(self), old(section.recursionCount) - 1)
    {
      section := Leave(section, self);
      r := 0;
    }
  }
}
