/**
  `native_rw_*` on Windows: an SRW lock and one plain flag that remembers, for
  unlock, whether the lock is held exclusively.

  The first part is the protocol as a machine of atomic steps, for any number of
  threads. The second part is the lock object with the bodies of the functions.
 */
module RwLock {
  import opened Wrappers
  import opened Errno

  // ---------- the operating system primitive ----------

  /**
    An SRW lock. It does not know its holders. A release in a mode in which the
    lock is not held corrupts it for good.
   */
  datatype Srw = Free | Shared(count: nat) | Exclusive | Corrupt

  /** `None` means that the caller has to wait, or that a `Try` call fails. */
  function AcquireShared(l: Srw): Option<Srw> {
    match l
    case Free => Some(Shared(1))
    case Shared(n) => Some(Shared(n + 1))
    case Exclusive => None
    case Corrupt => Some(Corrupt)
  }

  function AcquireExclusive(l: Srw): Option<Srw> {
    match l
    case Free => Some(Exclusive)
    case Corrupt => Some(Corrupt)
    case _ => None
  }

  function ReleaseShared(l: Srw): Srw {
    match l
    case Shared(n) => if n > 1 then Shared(n - 1) else if n == 1 then Free else Corrupt
    case _ => Corrupt
  }

  function ReleaseExclusive(l: Srw): Srw {
    if l == Exclusive then Free else Corrupt
  }

  // ---------- threads and steps ----------

  /** Where a thread stands inside a call; `Idle` between calls. */
  datatype Pc =
    | Idle
    | SettingFlag          // wrlock, trywrlock: the SRW lock is taken, the flag is not yet set
    | Testing              // unlock: about to read the flag
    | Clearing             // unlock: about to clear the flag
    | ReleasingExclusive
    | ReleasingShared

  /** What a thread holds: how many times for reading, and whether for writing. */
  datatype Hold = Hold(readCount: nat, writing: bool)

  datatype Thread = Thread(pc: Pc, hold: Hold)

  datatype State = State(threads: seq<Thread>, srw: Srw, haveExclusive: bool)

  datatype Action = RdLock | TryRdLock | WrLock | TryWrLock | Unlock | Continue

  datatype Mode = Reading | Writing

  /** What a step means to the callers of the lock. */
  datatype Event = Silent | Acquired(mode: Mode) | Busy(mode: Mode) | Released(mode: Mode)

  datatype Step = Step(next: State, event: Event)

  function Init(n: nat): State {
    State(seq(n, i => Thread(Idle, Hold(0, false))), Free, false)
  }

  function Goto(s: State, t: nat, pc: Pc): State
    requires t < |s.threads|
  {
    s.(threads := s.threads[t := s.threads[t].(pc := pc)])
  }

  /** Thread `t` takes the lock in its new state `l`. */
  function Take(s: State, t: nat, l: Srw, mode: Mode): State
    requires t < |s.threads|
  {
    var h := s.threads[t].hold;
    var th := if mode == Reading then Thread(Idle, h.(readCount := h.readCount + 1))
              else Thread(SettingFlag, h.(writing := true));
    s.(threads := s.threads[t := th], srw := l)
  }

  /** One atomic step of thread `t`; `None` when the thread cannot make it now. */
  function Next(s: State, t: nat, a: Action): Option<Step>
    requires t < |s.threads|
  {
    var th := s.threads[t];
    if a.Continue? then ContinueCall(s, t)
    else if th.pc != Idle then None
    else match a
      case RdLock =>
        (match AcquireShared(s.srw)
         case Some(l) => Some(Step(Take(s, t, l, Reading), Acquired(Reading)))
         case None => None)
      case TryRdLock =>
        (match AcquireShared(s.srw)
         case Some(l) => Some(Step(Take(s, t, l, Reading), Acquired(Reading)))
         case None => Some(Step(s, Busy(Reading))))
      case WrLock =>
        (match AcquireExclusive(s.srw)
         case Some(l) => Some(Step(Take(s, t, l, Writing), Acquired(Writing)))
         case None => None)
      case TryWrLock =>
        (match AcquireExclusive(s.srw)
         case Some(l) => Some(Step(Take(s, t, l, Writing), Acquired(Writing)))
         case None => Some(Step(s, Busy(Writing))))
      case Unlock =>
        // threads unlock only what they hold
        if th.hold.readCount > 0 || th.hold.writing then Some(Step(Goto(s, t, Testing), Silent)) else None
      case Continue => None
  }

  /** The next statement of a call in progress. */
  function ContinueCall(s: State, t: nat): Option<Step>
    requires t < |s.threads|
  {
    var h := s.threads[t].hold;
    match s.threads[t].pc
    case Idle => None
    case SettingFlag => Some(Step(Goto(s, t, Idle).(haveExclusive := true), Silent))
    case Testing => Some(Step(Goto(s, t, if s.haveExclusive then Clearing else ReleasingShared), Silent))
    case Clearing => Some(Step(Goto(s, t, ReleasingExclusive).(haveExclusive := false), Silent))
    case ReleasingExclusive =>
      var th := Thread(Idle, h.(writing := false));
      Some(Step(s.(threads := s.threads[t := th], srw := ReleaseExclusive(s.srw)), Released(Writing)))
    case ReleasingShared =>
      var th := Thread(Idle, h.(readCount := if h.readCount > 0 then h.readCount - 1 else 0));
      Some(Step(s.(threads := s.threads[t := th], srw := ReleaseShared(s.srw)), Released(Reading)))
  }

  // ---------- the lock the callers should see ----------

  function Holds(s: State): seq<Hold> {
    seq(|s.threads|, i requires 0 <= i < |s.threads| => s.threads[i].hold)
  }

  predicate NoWriter(h: seq<Hold>) {
    forall i :: 0 <= i < |h| ==> !h[i].writing
  }

  predicate NobodyHolds(h: seq<Hold>) {
    forall i :: 0 <= i < |h| ==> !h[i].writing && h[i].readCount == 0
  }

  /**
    A readers-writer lock that knows its holders: a reader gets in exactly when
    nobody writes, a writer exactly when nobody holds, and a release is in the
    mode in which the thread holds the lock.
   */
  function AbstractNext(h: seq<Hold>, t: nat, e: Event): Option<seq<Hold>>
    requires t < |h|
  {
    match e
    case Silent => Some(h)
    case Acquired(Reading) => if NoWriter(h) then Some(h[t := h[t].(readCount := h[t].readCount + 1)]) else None
    case Acquired(Writing) => if NobodyHolds(h) then Some(h[t := h[t].(writing := true)]) else None
    case Busy(Reading) => if NoWriter(h) then None else Some(h)
    case Busy(Writing) => if NobodyHolds(h) then None else Some(h)
    case Released(Reading) =>
      if h[t].readCount > 0 && !h[t].writing then Some(h[t := h[t].(readCount := h[t].readCount - 1)]) else None
    case Released(Writing) => if h[t].writing then Some(h[t := h[t].(writing := false)]) else None
  }

  // ---------- invariant ----------

  function TotalReads(ths: seq<Thread>): nat {
    if ths == [] then 0 else ths[0].hold.readCount + TotalReads(ths[1..])
  }

  predicate ThreadOk(th: Thread, haveExclusive: bool) {
    && (th.hold.writing ==> th.hold.readCount == 0)
    && (th.pc.SettingFlag? ==> th.hold.writing && !haveExclusive)
    && (th.pc.Testing? ==> th.hold.writing || th.hold.readCount > 0)
    && (th.pc.Clearing? ==> th.hold.writing)
    && (th.pc.ReleasingExclusive? ==> th.hold.writing && !haveExclusive)
    && (th.pc.ReleasingShared? ==> th.hold.readCount > 0)
    && (th.hold.writing && (th.pc.Idle? || th.pc.Testing? || th.pc.Clearing?) ==> haveExclusive)
  }

  ghost predicate Inv(s: State) {
    && (forall i :: 0 <= i < |s.threads| ==> ThreadOk(s.threads[i], s.haveExclusive))
    && (match s.srw
        case Free => NobodyHolds(Holds(s)) && !s.haveExclusive
        case Shared(n) => n > 0 && TotalReads(s.threads) == n && NoWriter(Holds(s)) && !s.haveExclusive
        case Exclusive => exists w: nat :: SoleHolder(s, w)
        case Corrupt => false)
  }

  /** Thread `w` writes and no other thread holds anything. */
  predicate SoleHolder(s: State, w: nat) {
    && w < |s.threads| && s.threads[w].hold.writing
    && forall i :: 0 <= i < |s.threads| && i != w ==> s.threads[i].hold == Hold(0, false)
  }

  lemma {:induction false} TotalReadsUpdate(ths: seq<Thread>, t: nat, th: Thread)
    requires t < |ths|
    ensures TotalReads(ths[t := th]) == TotalReads(ths) - ths[t].hold.readCount + th.hold.readCount
  {
    if t > 0 {
      TotalReadsUpdate(ths[1..], t - 1, th);
      assert ths[t := th][1..] == ths[1..][t - 1 := th];
    } else {
      assert ths[t := th][1..] == ths[1..];
    }
  }

  lemma {:induction false} TotalReadsZero(ths: seq<Thread>)
    ensures TotalReads(ths) == 0 <==> forall i :: 0 <= i < |ths| ==> ths[i].hold.readCount == 0
  {
    if ths != [] {
      TotalReadsZero(ths[1..]);
      if TotalReads(ths) == 0 {
        assert forall i :: 1 <= i < |ths| ==> ths[i].hold.readCount == ths[1..][i - 1].hold.readCount;
      } else if ths[0].hold.readCount == 0 {
        var i :| 0 <= i < |ths| - 1 && ths[1..][i].hold.readCount != 0;
        assert ths[i + 1].hold.readCount != 0;
      }
    }
  }

  lemma InitInv(n: nat)
    ensures Inv(Init(n))
  {
  }

  // ---------- every step ----------

  lemma TakeReading(s: State, t: nat)
    requires Inv(s) && t < |s.threads| && s.threads[t].pc == Idle && AcquireShared(s.srw).Some?
    ensures var s' := Take(s, t, AcquireShared(s.srw).value, Reading);
            Inv(s') && AbstractNext(Holds(s), t, Acquired(Reading)) == Some(Holds(s'))
  {
    var s' := Take(s, t, AcquireShared(s.srw).value, Reading);
    TotalReadsUpdate(s.threads, t, s'.threads[t]);
    TotalReadsZero(s.threads);
    assert forall i :: 0 <= i < |s.threads| ==> s.threads[i].hold == Holds(s)[i];
    assert Holds(s)[t] == s.threads[t].hold;
    assert Holds(s') == Holds(s)[t := s'.threads[t].hold];
  }

  lemma TakeWriting(s: State, t: nat)
    requires Inv(s) && t < |s.threads| && s.threads[t].pc == Idle && AcquireExclusive(s.srw).Some?
    ensures var s' := Take(s, t, AcquireExclusive(s.srw).value, Writing);
            Inv(s') && AbstractNext(Holds(s), t, Acquired(Writing)) == Some(Holds(s'))
  {
    var s' := Take(s, t, AcquireExclusive(s.srw).value, Writing);
    assert forall i :: 0 <= i < |s.threads| ==> s.threads[i].hold == Holds(s)[i];
    assert Holds(s') == Holds(s)[t := s'.threads[t].hold];
    assert SoleHolder(s', t);
  }

  /** A failed `Try` call finds a writer, or somebody, at that moment. */
  lemma BusyIsRight(s: State, t: nat)
    requires Inv(s) && t < |s.threads|
    ensures AcquireShared(s.srw).None? ==> AbstractNext(Holds(s), t, Busy(Reading)) == Some(Holds(s))
    ensures AcquireExclusive(s.srw).None? ==> AbstractNext(Holds(s), t, Busy(Writing)) == Some(Holds(s))
  {
    if s.srw.Exclusive? {
      var w: nat :| SoleHolder(s, w);
      assert Holds(s)[w].writing;
    } else if s.srw.Shared? {
      TotalReadsZero(s.threads);
      var i :| 0 <= i < |s.threads| && s.threads[i].hold.readCount != 0;
      assert Holds(s)[i].readCount != 0;
    }
  }

  /** A writer is the sole holder of an exclusively held lock. */
  lemma WriterIsSole(s: State, t: nat)
    requires Inv(s) && t < |s.threads| && s.threads[t].hold.writing
    ensures s.srw == Exclusive && SoleHolder(s, t)
  {
    assert Holds(s)[t].writing;
  }

  /** A reader excludes writers. */
  lemma ReaderShares(s: State, t: nat)
    requires Inv(s) && t < |s.threads| && s.threads[t].hold.readCount > 0
    ensures s.srw.Shared? && NoWriter(Holds(s)) && !s.haveExclusive
  {
    assert Holds(s)[t].readCount > 0;
  }

  lemma SilentStep(s: State, t: nat)
    requires Inv(s) && t < |s.threads|
    requires s.threads[t].pc.SettingFlag? || s.threads[t].pc.Testing? || s.threads[t].pc.Clearing?
    ensures var st := ContinueCall(s, t).value;
            Inv(st.next) && Holds(st.next) == Holds(s) && st.event == Silent
  {
    var s' := ContinueCall(s, t).value.next;
    assert Holds(s') == Holds(s);
    TotalReadsUpdate(s.threads, t, s'.threads[t]);
    if s.threads[t].hold.writing {
      WriterIsSole(s, t);
      assert SoleHolder(s', t);
    } else {
      ReaderShares(s, t);
    }
  }

  lemma ReleaseStep(s: State, t: nat)
    requires Inv(s) && t < |s.threads|
    requires s.threads[t].pc.ReleasingExclusive? || s.threads[t].pc.ReleasingShared?
    ensures var st := ContinueCall(s, t).value;
            Inv(st.next) && AbstractNext(Holds(s), t, st.event) == Some(Holds(st.next))
  {
    var s' := ContinueCall(s, t).value.next;
    assert Holds(s)[t] == s.threads[t].hold;
    assert Holds(s') == Holds(s)[t := s'.threads[t].hold];
    TotalReadsUpdate(s.threads, t, s'.threads[t]);
    if s.threads[t].pc.ReleasingExclusive? {
      WriterIsSole(s, t);
    } else {
      ReaderShares(s, t);
      TotalReadsZero(s'.threads);
    }
  }

  lemma UnlockStep(s: State, t: nat)
    requires Inv(s) && t < |s.threads| && s.threads[t].pc == Idle
    requires s.threads[t].hold.readCount > 0 || s.threads[t].hold.writing
    ensures Inv(Goto(s, t, Testing)) && Holds(Goto(s, t, Testing)) == Holds(s)
  {
    var s' := Goto(s, t, Testing);
    assert Holds(s') == Holds(s);
    TotalReadsUpdate(s.threads, t, s'.threads[t]);
    if s.threads[t].hold.writing {
      WriterIsSole(s, t);
      assert SoleHolder(s', t);
    } else {
      ReaderShares(s, t);
    }
  }

  /** Every step keeps the invariant and is a step of the abstract lock. */
  lemma StepRefines(s: State, t: nat, a: Action)
    requires Inv(s) && t < |s.threads| && Next(s, t, a).Some?
    ensures var st := Next(s, t, a).value;
            Inv(st.next) && AbstractNext(Holds(s), t, st.event) == Some(Holds(st.next))
  {
    match a
    case Continue =>
      if s.threads[t].pc.ReleasingExclusive? || s.threads[t].pc.ReleasingShared? {
        ReleaseStep(s, t);
      } else {
        SilentStep(s, t);
      }
    case Unlock => UnlockStep(s, t);
    case RdLock => TakeReading(s, t);
    case WrLock => TakeWriting(s, t);
    case TryRdLock => if AcquireShared(s.srw).Some? { TakeReading(s, t); } else { BusyIsRight(s, t); }
    case TryWrLock => if AcquireExclusive(s.srw).Some? { TakeWriting(s, t); } else { BusyIsRight(s, t); }
  }

  // ---------- which steps are possible ----------

  /** A thread that got the lock for reading. */
  function AsReader(th: Thread): Thread {
    Thread(Idle, th.hold.(readCount := th.hold.readCount + 1))
  }

  /** A thread that got the lock for writing, and has the flag still to set. */
  function AsWriter(th: Thread): Thread {
    Thread(SettingFlag, th.hold.(writing := true))
  }

  lemma SharedExactly(s: State, t: nat)
    requires Inv(s) && t < |s.threads| && s.threads[t].pc == Idle
    ensures AcquireShared(s.srw).Some? <==> NoWriter(Holds(s))
    ensures AcquireExclusive(s.srw).Some? <==> NobodyHolds(Holds(s))
  {
    BusyIsRight(s, t);
    if AcquireShared(s.srw).Some? {
      TakeReading(s, t);
    }
    if AcquireExclusive(s.srw).Some? {
      TakeWriting(s, t);
    }
  }

  /**
    When a thread that is not inside a call can begin one, and what that does. The
    blocking calls are possible exactly when the lock is to be had, the others
    always; unlock exactly when the thread holds the lock.
   */
  lemma BeginExactly(s: State, t: nat, a: Action)
    requires Inv(s) && t < |s.threads| && s.threads[t].pc == Idle
    ensures var th, h, st := s.threads[t], Holds(s), Next(s, t, a);
            match a
            case RdLock =>
              && (st.Some? <==> NoWriter(h))
              && (st.Some? ==> st.value.event == Acquired(Reading) && st.value.next.threads[t] == AsReader(th))
            case TryRdLock =>
              && st.Some?
              && (NoWriter(h) ==> st.value.event == Acquired(Reading) && st.value.next.threads[t] == AsReader(th))
              && (!NoWriter(h) ==> st.value == Step(s, Busy(Reading)))
            case WrLock =>
              && (st.Some? <==> NobodyHolds(h))
              && (st.Some? ==> st.value.event == Acquired(Writing) && st.value.next.threads[t] == AsWriter(th))
            case TryWrLock =>
              && st.Some?
              && (NobodyHolds(h) ==> st.value.event == Acquired(Writing) && st.value.next.threads[t] == AsWriter(th))
              && (!NobodyHolds(h) ==> st.value == Step(s, Busy(Writing)))
            case Unlock =>
              && (st.Some? <==> th.hold.readCount > 0 || th.hold.writing)
              && (st.Some? ==> st.value.event == Silent && st.value.next.threads[t] == Thread(Testing, th.hold))
            case Continue => st.None?
  {
    SharedExactly(s, t);
  }

  /** How many statements of its call a thread has still to make. */
  function Left(th: Thread): nat {
    match th.pc
    case Idle => 0
    case SettingFlag => 1
    case Testing => if th.hold.writing then 3 else 2
    case Clearing => 2
    case ReleasingExclusive => 1
    case ReleasingShared => 1
  }

  function ModeOf(h: Hold): Mode {
    if h.writing then Writing else Reading
  }

  /** What is left of a hold after one release. */
  function Less(h: Hold): Hold {
    if h.writing then h.(writing := false) else h.(readCount := if h.readCount > 0 then h.readCount - 1 else 0)
  }

  /**
    A thread inside a call can make its next statement at any time, and no other
    call. Its last statement sets the flag, in an acquisition, or releases the lock
    in the mode in which the thread holds it.
   */
  lemma ContinueExactly(s: State, t: nat, a: Action)
    requires Inv(s) && t < |s.threads| && s.threads[t].pc != Idle
    ensures Next(s, t, a).Some? <==> a == Continue
    ensures var th, st := s.threads[t], Next(s, t, Continue).value;
            var th' := st.next.threads[t];
            var releases := Left(th) == 1 && th.pc != SettingFlag;
            && |st.next.threads| == |s.threads| && Left(th') == Left(th) - 1
            && (th'.pc == Idle <==> Left(th) == 1)
            && (th.pc == SettingFlag ==> st.next.haveExclusive)
            && st.event == (if releases then Released(ModeOf(th.hold)) else Silent)
            && th'.hold == (if releases then Less(th.hold) else th.hold)
  {
    if s.threads[t].hold.writing {
      WriterIsSole(s, t);
    } else if s.threads[t].hold.readCount > 0 {
      ReaderShares(s, t);
    }
  }

  /** No other thread's step moves a thread. */
  lemma OthersLeave(s: State, t: nat, u: nat, a: Action)
    requires t < |s.threads| && u < |s.threads| && t != u && Next(s, u, a).Some?
    ensures var s' := Next(s, u, a).value.next;
            |s'.threads| == |s.threads| && s'.threads[t] == s.threads[t]
  {
  }

  /** `n` statements of a call in progress, made by its thread alone. */
  function Solo(s: State, t: nat, n: nat): Option<Step>
    requires t < |s.threads| && n > 0
    decreases n
  {
    match ContinueCall(s, t)
    case None => None
    case Some(st) => if n == 1 then Some(st) else if t < |st.next.threads| then Solo(st.next, t, n - 1) else None
  }

  lemma {:induction false} CallCompletes(s: State, t: nat)
    requires Inv(s) && t < |s.threads| && s.threads[t].pc != Idle
    ensures var th, end := s.threads[t], Solo(s, t, Left(s.threads[t]));
            && end.Some? && t < |end.value.next.threads|
            && end.value.next.threads[t] == Thread(Idle, if th.pc == SettingFlag then th.hold else Less(th.hold))
            && end.value.event == if th.pc == SettingFlag then Silent else Released(ModeOf(th.hold))
    decreases Left(s.threads[t])
  {
    ContinueExactly(s, t, Continue);
    if Left(s.threads[t]) > 1 {
      StepRefines(s, t, Continue);
      CallCompletes(Next(s, t, Continue).value.next, t);
    }
  }

  /** An unlock that a holder begins ends in a release of what it holds. */
  lemma UnlockCompletes(s: State, t: nat)
    requires Inv(s) && t < |s.threads| && s.threads[t].pc == Idle
    requires s.threads[t].hold.readCount > 0 || s.threads[t].hold.writing
    ensures var h, begun := s.threads[t].hold, Next(s, t, Unlock);
            && begun.Some? && t < |begun.value.next.threads|
            && var end := Solo(begun.value.next, t, if h.writing then 3 else 2);
               && end.Some? && end.value.event == Released(ModeOf(h))
               && t < |end.value.next.threads| && end.value.next.threads[t] == Thread(Idle, Less(h))
  {
    BeginExactly(s, t, Unlock);
    StepRefines(s, t, Unlock);
    CallCompletes(Next(s, t, Unlock).value.next, t);
  }

  // ---------- every run ----------

  /** An interleaving: which thread moves, and with what. */
  type Schedule = seq<(nat, Action)>

  /** The states a schedule can reach; `None` when one of its steps is not possible. */
  function Run(n: nat, sched: Schedule): Option<State> {
    if sched == [] then Some(Init(n))
    else
      var (t, a) := sched[|sched| - 1];
      match Run(n, sched[..|sched| - 1])
      case None => None
      case Some(s) =>
        if t < |s.threads| then
          (match Next(s, t, a)
           case None => None
           case Some(st) => Some(st.next))
        else None
  }

  /** The holders according to the abstract lock, fed with the events of the same run. */
  function AbstractRun(n: nat, sched: Schedule): Option<seq<Hold>> {
    if sched == [] then Some(seq(n, i => Hold(0, false)))
    else
      var (t, a) := sched[|sched| - 1];
      match (AbstractRun(n, sched[..|sched| - 1]), Run(n, sched[..|sched| - 1]))
      case (Some(h), Some(s)) =>
        if t < |s.threads| && t < |h| then
          (match Next(s, t, a)
           case None => None
           case Some(st) => AbstractNext(h, t, st.event))
        else None
      case _ => None
  }

  /** Every interleaving of any number of threads refines the abstract readers-writer lock. */
  lemma {:induction false} RunRefines(n: nat, sched: Schedule)
    requires Run(n, sched).Some?
    ensures Inv(Run(n, sched).value)
    ensures AbstractRun(n, sched) == Some(Holds(Run(n, sched).value))
    decreases |sched|
  {
    if sched == [] {
      InitInv(n);
      assert Holds(Init(n)) == seq(n, i => Hold(0, false));
    } else {
      var (t, a) := sched[|sched| - 1];
      RunRefines(n, sched[..|sched| - 1]);
      StepRefines(Run(n, sched[..|sched| - 1]).value, t, a);
    }
  }

  /** A run goes on with a step exactly when a thread there is can make it. */
  lemma RunGoesOn(n: nat, sched: Schedule, t: nat, a: Action)
    requires Run(n, sched).Some?
    ensures |Run(n, sched).value.threads| == n
    ensures Run(n, sched + [(t, a)]).Some? <==> t < n && Next(Run(n, sched).value, t, a).Some?
    ensures Run(n, sched + [(t, a)]).Some? ==>
              Run(n, sched + [(t, a)]).value == Next(Run(n, sched).value, t, a).value.next
  {
    ThreadsStay(n, sched);
    LastOf(sched, (t, a));
  }

  lemma LastOf(sched: Schedule, last: (nat, Action))
    ensures var longer := sched + [last];
            longer != [] && longer[..|longer| - 1] == sched && longer[|longer| - 1] == last
  {
  }

  lemma StepKeepsThreads(s: State, t: nat, a: Action)
    requires t < |s.threads| && Next(s, t, a).Some?
    ensures |Next(s, t, a).value.next.threads| == |s.threads|
  {
  }

  lemma {:induction false} ThreadsStay(n: nat, sched: Schedule)
    requires Run(n, sched).Some?
    ensures |Run(n, sched).value.threads| == n
    decreases |sched|
  {
    if sched != [] {
      ThreadsStay(n, sched[..|sched| - 1]);
      var (t, a) := sched[|sched| - 1];
      StepKeepsThreads(Run(n, sched[..|sched| - 1]).value, t, a);
    }
  }

  /** The thread's next step reads, or writes, the flag. */
  predicate Accesses(th: Thread) {
    th.pc.SettingFlag? || th.pc.Testing? || th.pc.Clearing?
  }

  predicate Writes(th: Thread) {
    th.pc.SettingFlag? || th.pc.Clearing?
  }

  /**
    In every reachable state: the SRW lock is not corrupt; a thread about to
    release it holds it in just that mode; and two threads are never about to
    access the flag together when one of them writes it.
   */
  lemma RunIsSafe(n: nat, sched: Schedule, t: nat, u: nat)
    requires Run(n, sched).Some? && t < |Run(n, sched).value.threads| && u < |Run(n, sched).value.threads|
    ensures var s := Run(n, sched).value;
            && s.srw != Corrupt
            && (s.threads[t].pc.ReleasingExclusive? ==> s.threads[t].hold.writing && s.srw == Exclusive)
            && (s.threads[t].pc.ReleasingShared? ==>
                  !s.threads[t].hold.writing && s.threads[t].hold.readCount > 0 && s.srw.Shared?)
            && (t != u && Writes(s.threads[t]) ==> !Accesses(s.threads[u]))
  {
    RunRefines(n, sched);
    var s := Run(n, sched).value;
    if s.threads[t].hold.writing {
      WriterIsSole(s, t);
    } else if s.threads[t].hold.readCount > 0 {
      ReaderShares(s, t);
    }
  }

  /** In every reachable state: a writer excludes everyone else, and the flag is true only while one holds the lock. */
  lemma WriterExcludes(n: nat, sched: Schedule)
    requires Run(n, sched).Some?
    ensures var s := Run(n, sched).value;
            && (forall t, u :: 0 <= t < |s.threads| && 0 <= u < |s.threads| && t != u && s.threads[t].hold.writing ==>
                  s.threads[u].hold == Hold(0, false))
            && (s.haveExclusive ==> exists w: nat :: SoleHolder(s, w))
  {
    RunRefines(n, sched);
    var s := Run(n, sched).value;
    forall t, u | 0 <= t < |s.threads| && 0 <= u < |s.threads| && t != u && s.threads[t].hold.writing
      ensures s.threads[u].hold == Hold(0, false)
    {
      WriterIsSole(s, t);
    }
  }

  /** No release is lost: the SRW lock is free exactly when no thread holds anything. */
  lemma NothingLost(n: nat, sched: Schedule)
    requires Run(n, sched).Some?
    ensures var s := Run(n, sched).value;
            s.srw == Free <==> NobodyHolds(Holds(s))
  {
    RunRefines(n, sched);
    var s := Run(n, sched).value;
    if s.srw != Free {
      BusyIsRight(s, 0);
    }
  }

  // ---------- the lock object ----------

  class NativeRwLock {
    var srwlock: Srw
    var have_exclusive_srwlock: bool

    /** Between calls: the flag tells the mode of the SRW lock. */
    ghost predicate Valid()
      reads this
    {
      && srwlock != Corrupt && (srwlock.Shared? ==> srwlock.count > 0)
      && (have_exclusive_srwlock <==> srwlock.Exclusive?)
    }

    constructor ()
      ensures Valid() && srwlock == Free
    {
      srwlock := Free;
      have_exclusive_srwlock := false;
    }

    /** Returns once no writer is in the way. */
    method RdLock() returns (r: int)
      requires Valid() && !srwlock.Exclusive?
      modifies this
      ensures Valid() && r == 0
      ensures srwlock == Shared((if old(srwlock).Shared? then old(srwlock).count else 0) + 1)
    {
      srwlock := AcquireShared(srwlock).value;
      r := 0;
    }

    method TryRdLock() returns (r: int)
      requires Valid()
      modifies this
      ensures Valid()
      ensures r == (if old(srwlock).Exclusive? then EBUSY else 0)
      ensures r == EBUSY ==> srwlock == old(srwlock)
      ensures r == 0 ==> srwlock == Shared((if old(srwlock).Shared? then old(srwlock).count else 0) + 1)
    {
      var got := AcquireShared(srwlock);
      if got.None? {
        return EBUSY;
      }
      srwlock := got.value;
      r := 0;
    }

    /** Returns once nobody is in the way. */
    method WrLock() returns (r: int)
      requires Valid() && srwlock == Free
      modifies this
      ensures Valid() && r == 0 && srwlock == Exclusive
    {
      srwlock := AcquireExclusive(srwlock).value;
      have_exclusive_srwlock := true;
      r := 0;
    }

    method TryWrLock() returns (r: int)
      requires Valid()
      modifies this
      ensures Valid()
      ensures r == (if old(srwlock) == Free then 0 else EBUSY)
      ensures srwlock == (if r == 0 then Exclusive else old(srwlock))
    {
      var got := AcquireExclusive(srwlock);
      if got.None? {
        return EBUSY;
      }
      srwlock := got.value;
      have_exclusive_srwlock := true;
      r := 0;
    }

    /** One unlock for both modes: it undoes the last acquisition in its own mode. */
    method Unlock() returns (r: int)
      requires Valid() && srwlock != Free
      modifies this
      ensures Valid() && r == 0
      ensures old(srwlock) == Exclusive ==> srwlock == Free
      ensures old(srwlock).Shared? ==> AcquireShared(srwlock) == Some(old(srwlock))
    {
      if have_exclusive_srwlock {
        have_exclusive_srwlock := false;
        srwlock := ReleaseExclusive(srwlock);
      } else {
        srwlock := ReleaseShared(srwlock);
      }
      r := 0;
    }
  }
}
