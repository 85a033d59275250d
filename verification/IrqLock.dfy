/**
 The interrupt-masking mutex on one CPU, as a machine of single steps: an interrupt may enter
 between any two of them whenever the interrupt flag is set, and a handler, or a thread that
 yields, may hand the CPU to any other thread.
 */
module IrqLock {

  /** The mutexes of the kernel library. */
  datatype LockId = HeapLock | CacheLock | RootLock | FdsLock

  datatype Guard = Guard(lock: LockId, flags: bool)

  /** Where a context stands inside lock or drop. */
  datatype Pc =
    | Idle
    | Saved(lock: LockId, flags: bool)      // flags pushed and popped, cli still to come
    | Masked(lock: LockId, flags: bool)     // interrupts off, about to compare-and-exchange
    | Released(flags: bool)                 // lock word cleared, flags still to be restored

  /** A thread's own code, or an interrupt handler running on top of what it interrupted. */
  datatype Context = Context(pc: Pc, guards: seq<Guard>)

  /** A thread that has not the CPU: its contexts, the innermost last, and its saved interrupt flag. */
  datatype Thread = Thread(stack: seq<Context>, irq: bool)

  /** The interrupt flag, the lock words that are set, the contexts of the running thread, and the other threads. */
  datatype Cpu = Cpu(irq: bool, locked: set<LockId>, running: nat, stack: seq<Context>, parked: map<nat, Thread>)

  datatype Action =
    | SaveFlags(lock: LockId)
    | Cli
    | TryAcquire
    | Drop(index: nat)
    | RestoreFlags
    | Interrupt
    | Return
    | SetIrq(on: bool)
    | Spawn(thread: nat)
    | SwitchTo(thread: nat)

  /** The heap lock is taken under the others, never the other way round. */
  function Rank(l: LockId): nat {
    if l == HeapLock then 1 else 0
  }

  predicate MayLock(guards: seq<Guard>, l: LockId) {
    forall g :: g in guards ==> Rank(g.lock) < Rank(l)
  }

  function Top(s: Cpu): Context
    requires |s.stack| > 0
  {
    s.stack[|s.stack| - 1]
  }

  function WithTop(s: Cpu, c: Context): (t: Cpu)
    requires |s.stack| > 0
    ensures |t.stack| == |s.stack| && Top(t) == c && t == s.(stack := t.stack)
    ensures forall i :: 0 <= i < |s.stack| - 1 ==> t.stack[i] == s.stack[i]
  {
    s.(stack := s.stack[|s.stack| - 1 := c])
  }

  predicate Enabled(s: Cpu, a: Action) {
    |s.stack| > 0 &&
    var c := Top(s);
    match a
    case SaveFlags(l) => c.pc.Idle? && MayLock(c.guards, l)
    case Cli => c.pc.Saved?
    case TryAcquire => c.pc.Masked?
    case Drop(i) => c.pc.Idle? && i < |c.guards|
    case RestoreFlags => c.pc.Released?
    case Interrupt => s.irq
    case Return => |s.stack| > 1 && c == Context(Idle, [])
    case SetIrq(_) => c == Context(Idle, [])
    case Spawn(t) => c == Context(Idle, []) && t != s.running && t !in s.parked
    case SwitchTo(t) => c == Context(Idle, []) && t in s.parked
  }

  /** One step. A compare-and-exchange that finds the lock word set changes nothing: the loop spins. */
  function Next(s: Cpu, a: Action): (t: Cpu)
    requires Enabled(s, a)
  {
    var c := Top(s);
    match a
    case SaveFlags(l) => WithTop(s, c.(pc := Saved(l, s.irq)))
    case Cli => WithTop(s, c.(pc := Masked(c.pc.lock, c.pc.flags))).(irq := false)
    case TryAcquire =>
      if c.pc.lock in s.locked then s
      else WithTop(s, Context(Idle, c.guards + [Guard(c.pc.lock, c.pc.flags)])).(locked := s.locked + {c.pc.lock})
    case Drop(i) =>
      WithTop(s, Context(Released(c.guards[i].flags), c.guards[..i] + c.guards[i + 1..])).(locked := s.locked - {c.guards[i].lock})
    case RestoreFlags => WithTop(s, c.(pc := Idle)).(irq := c.pc.flags)
    case Interrupt => s.(irq := false, stack := s.stack + [Context(Idle, [])])
    case Return => s.(irq := true, stack := s.stack[..|s.stack| - 1])
    case SetIrq(on) => s.(irq := on)
    case Spawn(t) => s.(parked := s.parked[t := Thread([Context(Idle, [])], true)])
    case SwitchTo(t) =>
      Cpu(s.parked[t].irq, s.locked, t, s.parked[t].stack, (s.parked - {t})[s.running := Thread(s.stack, s.irq)])
  }

  const Boot := Cpu(false, {}, 0, [Context(Idle, [])], map[])

  // ----- runs

  /** Guards go in the reverse order of their locks, as scopes close. */
  predicate Lifo(s: Cpu, a: Action)
    requires |s.stack| > 0
  {
    a.Drop? ==> a.index == |Top(s).guards| - 1
  }

  predicate LegalRun(s: Cpu, actions: seq<Action>)
    decreases |actions|
  {
    |actions| == 0 || (Enabled(s, actions[0]) && Lifo(s, actions[0]) && LegalRun(Next(s, actions[0]), actions[1..]))
  }

  function Run(s: Cpu, actions: seq<Action>): Cpu
    requires LegalRun(s, actions)
    decreases |actions|
  {
    if |actions| == 0 then s else Run(Next(s, actions[0]), actions[1..])
  }

  // ----- the invariant

  /** A context that was interrupted held nothing and had interrupts on. */
  ghost predicate Interruptible(c: Context) {
    c.guards == [] && (c.pc.Idle? || (c.pc.Saved? && c.pc.flags))
  }

  /** A thread that gave up the CPU did so where it held nothing. */
  ghost predicate Suspended(t: Thread) {
    |t.stack| > 0 && t.stack[|t.stack| - 1] == Context(Idle, [])
    && forall i :: 0 <= i < |t.stack| - 1 ==> Interruptible(t.stack[i])
  }

  ghost function LocksOf(guards: seq<Guard>): set<LockId> {
    set g | g in guards :: g.lock
  }

  ghost predicate Distinct(guards: seq<Guard>) {
    forall i, j :: 0 <= i < j < |guards| ==> Rank(guards[i].lock) < Rank(guards[j].lock)
  }

  /** Flags as saved, or about to be restored, by a context that holds `guards` meanwhile. */
  ghost predicate FlagsFit(irq: bool, pc: Pc, guards: seq<Guard>) {
    && (forall i :: 1 <= i < |guards| ==> !guards[i].flags)
    && match pc
       case Idle => guards == [] || !irq
       case Saved(l, f) => f == irq && (guards == [] || !irq) && MayLock(guards, l)
       case Masked(l, f) => !irq && (guards == [] || !f) && MayLock(guards, l)
       case Released(f) => !irq && (guards == [] || !f)
  }

  ghost predicate Inv(s: Cpu) {
    && |s.stack| > 0
    && (forall i :: 0 <= i < |s.stack| - 1 ==> Interruptible(s.stack[i]))
    && Distinct(Top(s).guards)
    && FlagsFit(s.irq, Top(s).pc, Top(s).guards)
    && s.locked == LocksOf(Top(s).guards)
    && s.running !in s.parked && forall t :: t in s.parked ==> Suspended(s.parked[t])
  }

  lemma LocksOfAppend(guards: seq<Guard>, g: Guard)
    ensures LocksOf(guards + [g]) == LocksOf(guards) + {g.lock}
  {
    forall h | h in guards
      ensures h in guards + [g]
    {
    }
    assert g in guards + [g];
  }

  lemma AcquireKeepsInv(s: Cpu)
    requires Inv(s) && Enabled(s, TryAcquire)
    ensures Inv(Next(s, TryAcquire)) && Top(s).pc.lock !in s.locked
  {
    var c := Top(s);
    var g := Guard(c.pc.lock, c.pc.flags);
    LocksOfAppend(c.guards, g);
    assert forall h :: h in c.guards ==> Rank(h.lock) < Rank(g.lock);
    assert Distinct(c.guards + [g]) by {
      assert forall i :: 0 <= i < |c.guards| ==> c.guards[i] in c.guards;
    }
  }

  lemma LocksOfLast(gs: seq<Guard>)
    requires Distinct(gs) && |gs| > 0
    ensures LocksOf(gs[..|gs| - 1]) == LocksOf(gs) - {gs[|gs| - 1].lock}
  {
    var n := |gs| - 1;
    assert gs == gs[..n] + [gs[n]];
    LocksOfAppend(gs[..n], gs[n]);
    forall h | h in gs[..n]
      ensures h.lock != gs[n].lock
    {
      var i :| 0 <= i < n && gs[i] == h;
    }
  }

  lemma DropKeepsInv(s: Cpu)
    requires Inv(s) && Top(s).pc.Idle? && |Top(s).guards| > 0
    ensures Inv(Next(s, Drop(|Top(s).guards| - 1)))
  {
    var gs := Top(s).guards;
    var n := |gs| - 1;
    LocksOfLast(gs);
    assert gs[..n] + gs[n + 1..] == gs[..n];
  }

  lemma StepKeepsInv(s: Cpu, a: Action)
    requires Inv(s) && Enabled(s, a) && Lifo(s, a)
    ensures Inv(Next(s, a))
  {
    match a
    case TryAcquire => AcquireKeepsInv(s);
    case Drop(i) => DropKeepsInv(s);
    case Interrupt => assert Interruptible(Top(s));
    case Return => assert Interruptible(s.stack[|s.stack| - 2]);
    case SwitchTo(t) => assert Suspended(s.parked[t]) && Suspended(Thread(s.stack, s.irq));
    case _ =>
  }

  lemma {:induction false} RunKeepsInv(s: Cpu, actions: seq<Action>)
    requires Inv(s) && LegalRun(s, actions)
    ensures Inv(Run(s, actions))
    decreases |actions|
  {
    if |actions| == 0 {
    } else {
      StepKeepsInv(s, actions[0]);
      RunKeepsInv(Next(s, actions[0]), actions[1..]);
    }
  }

  // ----- main results, in every state a legal run reaches from boot

  /** While any lock word is set, interrupts are off. */
  lemma HeldMeansMasked(actions: seq<Action>)
    requires LegalRun(Boot, actions)
    ensures var s := Run(Boot, actions); s.locked != {} ==> !s.irq
  {
    RunKeepsInv(Boot, actions);
  }

  /** The compare-and-exchange never finds the lock taken: acquire succeeds at its first try. */
  lemma AcquireNeverSpins(actions: seq<Action>)
    requires LegalRun(Boot, actions)
    ensures var s := Run(Boot, actions);
            |s.stack| > 0 && (Top(s).pc.Masked? ==> Top(s).pc.lock !in s.locked && Next(s, TryAcquire) != s)
  {
    RunKeepsInv(Boot, actions);
    var s := Run(Boot, actions);
    if Top(s).pc.Masked? {
      assert Top(Next(s, TryAcquire)).pc != Top(s).pc;
    }
  }

  ghost function StackOf(s: Cpu, t: nat): seq<Context> {
    if t == s.running then s.stack else if t in s.parked then s.parked[t].stack else []
  }

  /** Guard k of context i of thread t is one for the mutex. */
  ghost predicate Holds(s: Cpu, t: nat, i: int, k: int, l: LockId) {
    var stack := StackOf(s, t);
    0 <= i < |stack| && 0 <= k < |stack[i].guards| && stack[i].guards[k].lock == l
  }

  /** At most one guard exists for a mutex, over all contexts of all threads, and exactly when its word is set. */
  lemma OneGuardPerMutex(actions: seq<Action>, l: LockId)
    requires LegalRun(Boot, actions)
    ensures var s := Run(Boot, actions);
            && (l in s.locked <==> exists t, i, k :: Holds(s, t, i, k, l))
            && (forall t, i, k, u, j, m :: Holds(s, t, i, k, l) && Holds(s, u, j, m, l) ==> t == u && i == j && k == m)
  {
    RunKeepsInv(Boot, actions);
    var s := Run(Boot, actions);
    if l in s.locked {
      var g :| g in Top(s).guards && g.lock == l;
      var k :| 0 <= k < |Top(s).guards| && Top(s).guards[k] == g;
      assert Holds(s, s.running, |s.stack| - 1, k, l);
    }
    forall t, i, k | Holds(s, t, i, k, l)
      ensures t == s.running && i == |s.stack| - 1 && l in s.locked
    {
      OnlyTopHolds(s, t, i, k, l);
    }
  }

  lemma OnlyTopHolds(s: Cpu, t: nat, i: int, k: int, l: LockId)
    requires Inv(s) && Holds(s, t, i, k, l)
    ensures t == s.running && i == |s.stack| - 1 && l in s.locked
  {
    assert t in s.parked ==> Suspended(s.parked[t]);
    var c := StackOf(s, t)[i];
    assert c.guards[k] in c.guards && c.guards != [];
  }

  // ----- the flag comes back

  ghost function FlagOf(s: Cpu, t: nat): bool {
    if t in s.parked then s.parked[t].irq else s.irq
  }

  /** No action of thread t at depth d sets the flag by hand, and the run never leaves that depth downwards. */
  ghost predicate WithinContext(s: Cpu, actions: seq<Action>, t: nat, d: nat)
    requires LegalRun(s, actions)
    decreases |actions|
  {
    |StackOf(s, t)| >= d &&
    (|actions| == 0 ||
     ((s.running == t && |s.stack| == d ==> !actions[0].SetIrq?) && WithinContext(Next(s, actions[0]), actions[1..], t, d)))
  }

  /** The context of thread t at depth d will, or did, leave the flag at b. */
  ghost predicate OwesFlag(s: Cpu, t: nat, d: nat, b: bool)
    requires 0 < d <= |StackOf(s, t)|
  {
    var c := StackOf(s, t)[d - 1];
    if |StackOf(s, t)| > d then b
    else if c.guards != [] then c.guards[0].flags == b
    else match c.pc
         case Idle => FlagOf(s, t) == b
         case Saved(l, f) => FlagOf(s, t) == b && f == b
         case Masked(l, f) => f == b
         case Released(f) => f == b
  }

  lemma StepOwesFlag(s: Cpu, a: Action, t: nat, d: nat, b: bool)
    requires Inv(s) && Enabled(s, a) && Lifo(s, a) && 0 < d <= |StackOf(s, t)| && OwesFlag(s, t, d, b)
    requires s.running == t && |s.stack| == d ==> !a.SetIrq?
    requires |StackOf(Next(s, a), t)| >= d
    ensures OwesFlag(Next(s, a), t, d, b)
  {
    if |StackOf(s, t)| > d {
      assert s.running == t ==> Interruptible(s.stack[d - 1]);
      assert t in s.parked ==> Suspended(s.parked[t]) && Interruptible(s.parked[t].stack[d - 1]);
    }
  }

  lemma {:induction false} RunOwesFlag(s: Cpu, actions: seq<Action>, t: nat, d: nat, b: bool)
    requires Inv(s) && LegalRun(s, actions) && WithinContext(s, actions, t, d) && 0 < d && OwesFlag(s, t, d, b)
    ensures var u := Run(s, actions); |StackOf(u, t)| >= d && OwesFlag(u, t, d, b)
    decreases |actions|
  {
    if |actions| == 0 {
    } else {
      StepKeepsInv(s, actions[0]);
      StepOwesFlag(s, actions[0], t, d, b);
      RunOwesFlag(Next(s, actions[0]), actions[1..], t, d, b);
    }
  }

  /**
   Whatever a context locks and drops, nested or not, however often it is interrupted and
   whichever threads run in between, once it has the CPU and holds nothing again the interrupt
   flag is what it was before the first lock.
   */
  lemma DropsRestoreFlag(prefix: seq<Action>, actions: seq<Action>)
    requires LegalRun(Boot, prefix)
    requires var s := Run(Boot, prefix); |s.stack| > 0 && Top(s) == Context(Idle, []) && LegalRun(s, actions)
                                         && WithinContext(s, actions, s.running, |s.stack|)
    ensures var s := Run(Boot, prefix);
            var u := Run(s, actions);
            u.running == s.running && |u.stack| == |s.stack| && Top(u) == Context(Idle, []) ==> u.irq == s.irq
  {
    RunKeepsInv(Boot, prefix);
    hide Next, Enabled, Distinct, LocksOf, Interruptible, Suspended, FlagsFit;
    var s := Run(Boot, prefix);
    RunOwesFlag(s, actions, s.running, |s.stack|, s.irq);
    RunRunsUnparked(s, actions);
  }

  lemma RunRunsUnparked(s: Cpu, actions: seq<Action>)
    requires Inv(s) && LegalRun(s, actions)
    ensures Run(s, actions).running !in Run(s, actions).parked
  {
    RunKeepsInv(s, actions);
  }

  /**
   Out of order, dropping a guard and restoring its flags leaves interrupts on under a held lock
   exactly when it is the outermost of several and was taken with interrupts on.
   */
  lemma OutOfOrderDropUnmasksIff(s: Cpu, i: nat)
    requires Inv(s) && Enabled(s, Drop(i))
    ensures var t := Next(Next(s, Drop(i)), RestoreFlags);
            (t.locked != {} && t.irq) <==> (i == 0 && |Top(s).guards| > 1 && Top(s).guards[0].flags)
  {
    var c := Top(s);
    var t := Next(Next(s, Drop(i)), RestoreFlags);
    if |c.guards| > 1 {
      var j := if i == 0 then 1 else 0;
      assert c.guards[j] in c.guards && c.guards[j].lock != c.guards[i].lock;
      assert c.guards[j].lock in t.locked;
    } else {
      assert c.guards == [c.guards[i]];
      assert t.locked == {};
    }
  }

  // ----- what a step is undone by

  lemma TopReplaced(s: Cpu, c: Context, d: Context)
    requires |s.stack| > 0
    ensures WithTop(WithTop(s, c), d) == WithTop(s, d) && WithTop(s, Top(s)) == s
  {
    assert s.stack[|s.stack| - 1 := c][|s.stack| - 1 := d] == s.stack[|s.stack| - 1 := d];
    assert s.stack[|s.stack| - 1 := Top(s)] == s.stack;
  }

  /** The steps of lock: interrupts are off, the lock word is set and the guard keeps the flag there was. */
  lemma LockTakes(s: Cpu, l: LockId)
    requires Inv(s) && Enabled(s, SaveFlags(l))
    ensures var t := Next(Next(s, SaveFlags(l)), Cli);
            && Enabled(Next(s, SaveFlags(l)), Cli) && Enabled(t, TryAcquire)
            && Next(t, TryAcquire) == s.(irq := false, locked := s.locked + {l},
                                         stack := s.stack[..|s.stack| - 1] + [Context(Idle, Top(s).guards + [Guard(l, s.irq)])])
  {
    var c := Top(s);
    var t := Next(Next(s, SaveFlags(l)), Cli);
    StepKeepsInv(s, SaveFlags(l));
    StepKeepsInv(Next(s, SaveFlags(l)), Cli);
    AcquireKeepsInv(t);
    assert Next(t, TryAcquire).stack == s.stack[..|s.stack| - 1] + [Context(Idle, c.guards + [Guard(l, s.irq)])];
  }

  /** Dropping the guard just taken, with the flag restored, leads back to the very state before the lock. */
  lemma LockThenDrop(s: Cpu, l: LockId)
    requires Inv(s) && Enabled(s, SaveFlags(l))
    ensures var t := Next(Next(Next(s, SaveFlags(l)), Cli), TryAcquire);
            var i := |Top(s).guards|;
            Enabled(t, Drop(i)) && Next(Next(t, Drop(i)), RestoreFlags) == s
  {
    LockTakes(s, l);
    var c, g := Top(s), Guard(l, s.irq);
    var t := Next(Next(Next(s, SaveFlags(l)), Cli), TryAcquire);
    assert Top(t) == Context(Idle, c.guards + [g]);
    assert (c.guards + [g])[..|c.guards|] + (c.guards + [g])[|c.guards| + 1..] == c.guards;
    NotYetHeld(s, l);
    assert s.locked + {l} - {l} == s.locked;
    assert Next(Next(t, Drop(|c.guards|)), RestoreFlags).stack == s.stack;
  }

  lemma NotYetHeld(s: Cpu, l: LockId)
    requires Inv(s) && MayLock(Top(s).guards, l)
    ensures l !in s.locked
  {
  }

  /** An interrupt whose handler returns, and a thread that gets the CPU back, find everything as it was. */
  lemma ReturnsWhereItWas(s: Cpu, t: nat)
    requires Inv(s)
    ensures s.irq ==> Enabled(Next(s, Interrupt), Return) && Next(Next(s, Interrupt), Return) == s
    ensures Enabled(s, SwitchTo(t)) ==>
              var u := Next(s, SwitchTo(t));
              && u.running == t && u.stack == s.parked[t].stack && u.irq == s.parked[t].irq && u.locked == s.locked
              && Enabled(u, SwitchTo(s.running)) && Next(u, SwitchTo(s.running)) == s
  {
    if s.irq {
      assert (s.stack + [Context(Idle, [])])[..|s.stack|] == s.stack;
    }
    if Enabled(s, SwitchTo(t)) {
      var u := Next(s, SwitchTo(t));
      assert Suspended(s.parked[t]);
      assert (u.parked - {s.running})[t := Thread(u.stack, u.irq)] == s.parked;
    }
  }

  /** A new thread starts with interrupts on and nothing held. */
  lemma SpawnedStarts(s: Cpu, t: nat)
    requires Inv(s) && Enabled(s, Spawn(t))
    ensures Enabled(Next(s, Spawn(t)), SwitchTo(t))
    ensures var u := Next(Next(s, Spawn(t)), SwitchTo(t));
            u.running == t && u.irq && u.locked == {} && u.stack == [Context(Idle, [])]
  {
    assert LocksOf(Top(s).guards) == {};
  }

  // ----- the failing drop, reached

  const NestedState :=
    Cpu(false, {CacheLock, HeapLock}, 0, [Context(Idle, [Guard(CacheLock, true), Guard(HeapLock, false)])], map[])

  /**
   A run from boot into the failing case: with interrupts on, the cache lock and the heap lock
   inside it. There, dropping the cache guard first turns interrupts on while the heap lock is held.
   */
  lemma OutOfOrderDropReached(actions: seq<Action>)
    requires actions == [SetIrq(true), SaveFlags(CacheLock), Cli, TryAcquire, SaveFlags(HeapLock), Cli, TryAcquire]
    ensures LegalRun(Boot, actions) && Run(Boot, actions) == NestedState
    ensures Enabled(NestedState, Drop(0))
    ensures var t := Next(Next(NestedState, Drop(0)), RestoreFlags); t.irq && t.locked == {HeapLock}
  {
    hide Run, LegalRun;
    var outer, inner := Guard(CacheLock, true), Guard(HeapLock, false);
    var s0 := Boot.(irq := true);
    var s1 := s0.(stack := [Context(Saved(CacheLock, true), [])]);
    var s2 := s1.(irq := false, stack := [Context(Masked(CacheLock, true), [])]);
    var s3 := s2.(locked := {CacheLock}, stack := [Context(Idle, [outer])]);
    var s4 := s3.(stack := [Context(Saved(HeapLock, false), [outer])]);
    var s5 := s4.(stack := [Context(Masked(HeapLock, false), [outer])]);
    var s6 := s5.(locked := {CacheLock, HeapLock}, stack := [Context(Idle, [outer, inner])]);
    NoSteps(s6, actions[7..]);
    SecondAcquire(s5, s6);
    RunStep(s5, s6, actions[6..]);
    RunStep(s4, s5, actions[5..]);
    RunStep(s3, s4, actions[4..]);
    FirstAcquire(s2, s3);
    RunStep(s2, s3, actions[3..]);
    RunStep(s1, s2, actions[2..]);
    RunStep(s0, s1, actions[1..]);
    RunStep(Boot, s0, actions[0..]);
    assert actions[0..] == actions;
    InnerRemains(s6);
  }

  lemma NoSteps(s: Cpu, actions: seq<Action>)
    requires actions == []
    ensures LegalRun(s, actions) && Run(s, actions) == s
  {
  }

  lemma FirstAcquire(s: Cpu, t: Cpu)
    requires s.locked == {} && s.stack == [Context(Masked(CacheLock, true), [])]
    requires t == s.(locked := {CacheLock}, stack := [Context(Idle, [Guard(CacheLock, true)])])
    ensures Next(s, TryAcquire) == t
  {
    var guards := [Guard(CacheLock, true)];
    assert [] + guards == guards && s.stack[0 := Context(Idle, guards)] == t.stack && {} + {CacheLock} == t.locked;
  }

  lemma SecondAcquire(s: Cpu, t: Cpu)
    requires s.locked == {CacheLock} && s.stack == [Context(Masked(HeapLock, false), [Guard(CacheLock, true)])]
    requires t == s.(locked := {CacheLock, HeapLock}, stack := [Context(Idle, [Guard(CacheLock, true), Guard(HeapLock, false)])])
    ensures Next(s, TryAcquire) == t
  {
    var guards := [Guard(CacheLock, true), Guard(HeapLock, false)];
    assert [guards[0]] + [guards[1]] == guards && s.stack[0 := Context(Idle, guards)] == t.stack;
    assert s.locked + {HeapLock} == t.locked;
  }

  lemma InnerRemains(s: Cpu)
    requires s.locked == {CacheLock, HeapLock} && s.stack == [Context(Idle, [Guard(CacheLock, true), Guard(HeapLock, false)])]
    ensures var t := Next(Next(s, Drop(0)), RestoreFlags); t.irq && t.locked == {HeapLock}
  {
  }

  lemma RunStep(s: Cpu, t: Cpu, actions: seq<Action>)
    requires |actions| > 0 && Enabled(s, actions[0]) && Lifo(s, actions[0]) && Next(s, actions[0]) == t
    requires LegalRun(t, actions[1..])
    ensures LegalRun(s, actions) && Run(s, actions) == Run(t, actions[1..])
  {
  }
}
