/**
 The round-robin scheduler: four circular rings of processes, rotated without removal, and
 the quantum accounting of the timer tick.
 */
module Scheduler {

  const DEFAULT_QUANTUM := 50
  const LEVELS := 4

  datatype ProcState = Ready | Running | Blocked | Terminated

  class Process {
    const priority: nat
    var state: ProcState
    var quantum: nat
    var totalTime: nat
    var next: Process?

    constructor (priority: nat)
      ensures this.priority == priority && state == Ready && quantum == DEFAULT_QUANTUM && totalTime == 0 && next == null
    {
      this.priority := priority;
      state, quantum, totalTime, next := Ready, DEFAULT_QUANTUM, 0, null;
    }
  }

  function Level(p: Process): (l: nat)
    ensures l < LEVELS
  {
    if p.priority > 3 then 3 else p.priority
  }

  // ----- rings as sequences, the head first

  ghost predicate Distinct(q: seq<Process>) {
    forall i, j :: 0 <= i < j < |q| ==> q[i] != q[j]
  }

  ghost function IndexIn(q: seq<Process>, p: Process): (k: nat)
    requires p in q
    ensures k < |q| && q[k] == p && p !in q[..k]
  {
    if q[0] == p then 0 else 1 + IndexIn(q[1..], p)
  }

  /** Linking p behind the last element: an append, but a cut behind p when p is already there. */
  ghost function Added(q: seq<Process>, p: Process): seq<Process> {
    if p in q then q[..IndexIn(q, p) + 1] else q + [p]
  }

  /** Unlinking p; a ring of one is emptied whoever p is. */
  ghost function Removed(q: seq<Process>, p: Process): seq<Process> {
    if |q| <= 1 then []
    else if p in q then q[..IndexIn(q, p)] + q[IndexIn(q, p) + 1..]
    else q
  }

  ghost function Rotated(q: seq<Process>): seq<Process>
    requires |q| > 0
  {
    q[1..] + [q[0]]
  }

  lemma {:induction false} IndexUnique(q: seq<Process>, k: nat)
    requires Distinct(q) && k < |q|
    ensures IndexIn(q, q[k]) == k
  {
  }

  /** Adding a member again changes nothing exactly when it is the last of the ring. */
  lemma ReAddIsNoOpIff(q: seq<Process>, p: Process)
    requires Distinct(q) && p in q
    ensures Added(q, p) == q <==> q[|q| - 1] == p
    ensures q == Added(q, p) + q[IndexIn(q, p) + 1..]
  {
    var k := IndexIn(q, p);
    assert q == q[..k + 1] + q[k + 1..];
    if q[|q| - 1] == p {
      IndexUnique(q, |q| - 1);
    } else {
      assert |Added(q, p)| < |q|;
    }
  }

  ghost function Without(q: seq<Process>, p: Process): seq<Process> {
    if |q| == 0 then [] else Without(q[..|q| - 1], p) + (if q[|q| - 1] == p then [] else [q[|q| - 1]])
  }

  lemma {:induction false} WithoutAbsent(q: seq<Process>, p: Process)
    requires p !in q
    ensures Without(q, p) == q
  {
    if |q| == 0 {
    } else {
      WithoutAbsent(q[..|q| - 1], p);
    }
  }

  lemma CutBeforeLast<T>(q: seq<T>, k: nat)
    requires k + 1 < |q|
    ensures var n := |q| - 1; q[..n][..k] + q[..n][k + 1..] + [q[n]] == q[..k] + q[k + 1..]
  {
    var n := |q| - 1;
    assert q[..n][..k] == q[..k] && q[..n][k + 1..] + [q[n]] == q[k + 1..];
  }

  lemma IndexInFront(q: seq<Process>, p: Process)
    requires Distinct(q) && p in q && IndexIn(q, p) < |q| - 1
    ensures p in q[..|q| - 1] && IndexIn(q[..|q| - 1], p) == IndexIn(q, p)
  {
    var k, init := IndexIn(q, p), q[..|q| - 1];
    assert init[k] == p;
    IndexUnique(init, k);
  }

  lemma {:induction false} WithoutPresent(q: seq<Process>, p: Process)
    requires Distinct(q) && p in q
    ensures Without(q, p) == q[..IndexIn(q, p)] + q[IndexIn(q, p) + 1..]
  {
    hide IndexIn;
    var n := |q| - 1;
    var k := IndexIn(q, p);
    if k == n {
      WithoutAbsent(q[..n], p);
    } else {
      IndexInFront(q, p);
      WithoutPresent(q[..n], p);
      CutBeforeLast(q, k);
    }
  }

  /** Removal takes out p and nothing else, except that it empties a ring of one other process. */
  lemma RemoveIsExactIff(q: seq<Process>, p: Process)
    requires Distinct(q)
    ensures Removed(q, p) == Without(q, p) <==> !(|q| == 1 && q[0] != p)
  {
    if p in q { WithoutPresent(q, p); } else { WithoutAbsent(q, p); }
  }

  // ----- the scheduler as a value

  datatype Pcb = Pcb(state: ProcState, quantum: nat, totalTime: nat)

  datatype Sched = Sched(rings: seq<seq<Process>>, current: Process?, idle: Process?, pcbs: map<Process, Pcb>)

  ghost predicate Sane(s: Sched) {
    && |s.rings| == LEVELS
    && (forall r, p :: 0 <= r < LEVELS && p in s.rings[r] ==> p in s.pcbs && Level(p) == r)
    && (forall r :: 0 <= r < LEVELS ==> Distinct(s.rings[r]))
    && (s.current != null ==> s.current in s.pcbs && s.idle != null && s.idle in s.pcbs)
  }

  ghost function WithPcb(s: Sched, p: Process, b: Pcb): Sched {
    s.(pcbs := s.pcbs[p := b])
  }

  ghost function AddTo(s: Sched, p: Process): Sched
    requires Sane(s) && p in s.pcbs
  {
    WithPcb(s.(rings := s.rings[Level(p) := Added(s.rings[Level(p)], p)]), p, Pcb(Ready, DEFAULT_QUANTUM, s.pcbs[p].totalTime))
  }

  ghost function RemoveFrom(s: Sched, p: Process): Sched
    requires Sane(s)
  {
    s.(rings := s.rings[Level(p) := Removed(s.rings[Level(p)], p)])
  }

  /** The highest level with a non-empty ring below `from`, or none. */
  ghost function Highest(rings: seq<seq<Process>>, from: nat := LEVELS): (h: int)
    requires |rings| == LEVELS && from <= LEVELS
    ensures -1 <= h < from && (h >= 0 ==> |rings[h]| > 0)
    ensures forall r :: h < r < from ==> |rings[r]| == 0
  {
    if from == 0 then -1 else if |rings[from - 1]| > 0 then from - 1 else Highest(rings, from - 1)
  }

  /** Rotates the highest non-empty ring and names its old head, or the idle process. */
  ghost function Select(s: Sched): (Sched, Process?)
    requires Sane(s)
  {
    var h := Highest(s.rings);
    if h < 0 then (s, s.idle) else (s.(rings := s.rings[h := Rotated(s.rings[h])]), s.rings[h][0])
  }

  /** Makes `next` the running process; the process that keeps the CPU only gets a new quantum. */
  ghost function SwitchTo(s: Sched, next: Process): (t: Sched)
    requires Sane(s) && s.current != null && next in s.pcbs
    ensures Sane(t)
  {
    var b := s.pcbs[next];
    if next == s.current then WithPcb(s, next, b.(quantum := DEFAULT_QUANTUM))
    else WithPcb(s.(current := next), next, Pcb(Running, DEFAULT_QUANTUM, b.totalTime))
  }

  ghost function Schedule(s: Sched): (t: Sched)
    requires Sane(s)
    ensures Sane(t)
  {
    if s.current == null then s
    else
      var a := if s.pcbs[s.current].state == Running then AddTo(s, s.current) else s;
      AddSane(s, s.current);
      SelectSane(a);
      var (b, next) := Select(a);
      SwitchTo(b, next)
  }

  ghost function Tick(s: Sched): (t: Sched)
    requires Sane(s)
    ensures Sane(t)
  {
    if s.current == null then s
    else
      var b := s.pcbs[s.current];
      var c := if b.quantum > 0 then WithPcb(s, s.current, Pcb(b.state, b.quantum - 1, b.totalTime + 1)) else s;
      if c.pcbs[c.current].quantum == 0 then Schedule(c) else c
  }

  ghost function Ticks(s: Sched, n: nat): (t: Sched)
    requires Sane(s)
    ensures Sane(t)
  {
    if n == 0 then s else Tick(Ticks(s, n - 1))
  }

  lemma AddSane(s: Sched, p: Process)
    requires Sane(s) && p in s.pcbs
    ensures Sane(AddTo(s, p))
  {
    var q := s.rings[Level(p)];
    AddedDistinct(q, p);
    assert forall x :: x in Added(q, p) ==> x in q || x == p;
  }

  lemma AddedDistinct(q: seq<Process>, p: Process)
    requires Distinct(q)
    ensures Distinct(Added(q, p))
  {
  }

  lemma RemoveSane(s: Sched, p: Process)
    requires Sane(s)
    ensures Sane(RemoveFrom(s, p))
  {
  }

  lemma SelectSane(s: Sched)
    requires Sane(s) && s.current != null
    ensures var (t, next) := Select(s); Sane(t) && next != null && next in t.pcbs && t.current == s.current
  {
    var h := Highest(s.rings);
    if h >= 0 {
      RotatedSame(s.rings[h]);
      assert s.rings[h][0] in s.rings[h];
    }
  }

  lemma RotatedSame(q: seq<Process>)
    requires |q| > 0 && Distinct(q)
    ensures Distinct(Rotated(q)) && forall p :: p in Rotated(q) <==> p in q
  {
    assert q == [q[0]] + q[1..];
  }

  // ----- fair shares

  /** `q` is the highest ring in use, its last member was just dispatched and has its whole quantum. */
  ghost predicate JustDispatched(s: Sched, h: nat, q: seq<Process>) {
    && Sane(s) && h < LEVELS && s.rings[h] == q && |q| > 0
    && (forall r :: h < r < LEVELS ==> s.rings[r] == [])
    && s.current == q[|q| - 1] && s.current in s.pcbs
    && s.pcbs[s.current].quantum == DEFAULT_QUANTUM
  }

  lemma {:induction false} TicksAdd(s: Sched, a: nat, b: nat)
    requires Sane(s)
    ensures Ticks(s, a + b) == Ticks(Ticks(s, a), b)
  {
    hide Tick, Sane;
    if b == 0 {
    } else {
      TicksAdd(s, a, b - 1);
    }
  }

  lemma TickInsideQuantum(s: Sched)
    requires Sane(s) && s.current != null && s.pcbs[s.current].quantum > 1
    ensures var b := s.pcbs[s.current];
            Tick(s) == WithPcb(s, s.current, Pcb(b.state, b.quantum - 1, b.totalTime + 1))
  {
    hide Schedule;
  }

  lemma WithPcbFacts(s: Sched, p: Process, b: Pcb)
    requires Sane(s) && p in s.pcbs
    ensures var t := WithPcb(s, p, b);
            t.rings == s.rings && t.current == s.current && t.idle == s.idle && p in t.pcbs && t.pcbs[p] == b && Sane(t)
  {
  }

  lemma WithPcbTwice(s: Sched, p: Process, a: Pcb, b: Pcb)
    ensures WithPcb(WithPcb(s, p, a), p, b) == WithPcb(s, p, b)
  {
    assert s.pcbs[p := a][p := b] == s.pcbs[p := b];
  }

  /** Until the quantum is used up, each tick moves one unit from it to the total. */
  lemma {:induction false} QuantumRunsDown(s: Sched, k: nat)
    requires Sane(s) && s.current != null && s.pcbs[s.current].quantum == DEFAULT_QUANTUM && k < DEFAULT_QUANTUM
    ensures var b := s.pcbs[s.current];
            Ticks(s, k) == WithPcb(s, s.current, Pcb(b.state, DEFAULT_QUANTUM - k, b.totalTime + k))
  {
    hide Tick;
    var b := s.pcbs[s.current];
    if k == 0 {
      assert s.pcbs == s.pcbs[s.current := b];
    } else {
      QuantumRunsDown(s, k - 1);
      TickInsideQuantum(Ticks(s, k - 1));
      WithPcbTwice(s, s.current, Pcb(b.state, DEFAULT_QUANTUM - k + 1, b.totalTime + k - 1),
                   Pcb(b.state, DEFAULT_QUANTUM - k, b.totalTime + k));
    }
  }

  /** The members and their total times are the same, except that `p` has had `n` more units. */
  ghost predicate Gained(before: map<Process, Pcb>, after: map<Process, Pcb>, p: Process, n: nat) {
    && after.Keys == before.Keys
    && forall x :: x in before ==> after[x].totalTime == before[x].totalTime + (if x == p then n else 0)
  }

  /** The running process is the last of its ring, so putting it back leaves every ring as it was. */
  lemma PutBackIsNoOp(s: Sched, q: seq<Process>)
    requires Sane(s) && s.current != null && |q| > 0 && s.rings[Level(s.current)] == q && s.current == q[|q| - 1]
    ensures AddTo(s, s.current).rings == s.rings && Gained(s.pcbs, AddTo(s, s.current).pcbs, s.current, 0)
    ensures AddTo(s, s.current).current == s.current && AddTo(s, s.current).idle == s.idle
  {
    assert s.current in q;
    ReAddIsNoOpIff(q, s.current);
  }

  lemma DispatchHead(a: Sched, h: nat, q: seq<Process>)
    requires Sane(a) && h < LEVELS && a.rings[h] == q && |q| > 0 && a.current != null
    requires forall r :: h < r < LEVELS ==> a.rings[r] == []
    ensures Select(a) == (a.(rings := a.rings[h := Rotated(q)]), q[0])
    ensures q[0] in a.pcbs
    ensures var t := SwitchTo(Select(a).0, q[0]);
            JustDispatched(t, h, Rotated(q)) && Gained(a.pcbs, t.pcbs, q[0], 0)
  {
    assert q[0] in q;
    HighestIs(a.rings, h, LEVELS);
    SelectSane(a);
    assert Rotated(q)[|q| - 1] == q[0];
  }

  /** What the rest of a reschedule starts from: the running process is back, and no ring has changed. */
  lemma AfterPutBack(s: Sched, h: nat, q: seq<Process>) returns (a: Sched)
    requires Sane(s) && h < LEVELS && s.rings[h] == q && |q| > 0 && s.current == q[|q| - 1]
    ensures Sane(a) && a.rings == s.rings && a.current == s.current && Gained(s.pcbs, a.pcbs, q[0], 0)
    ensures Select(a).1 != null && Select(a).1 in Select(a).0.pcbs && Sane(Select(a).0)
    ensures Select(a).0.current == s.current && Schedule(s) == SwitchTo(Select(a).0, Select(a).1)
  {
    var p := q[|q| - 1];
    assert p in q && Level(p) == h;
    PutBackIsNoOp(s, q);
    AddSane(s, p);
    hide Select, SwitchTo, AddTo, Added, Distinct;
    a := if s.pcbs[p].state == Running then AddTo(s, p) else s;
    SelectSane(a);
  }

  /** When the quantum runs out, the head of the ring runs next and the ring turns by one. */
  lemma HandOver(s: Sched, h: nat, q: seq<Process>)
    requires Sane(s) && h < LEVELS && s.rings[h] == q && |q| > 0 && s.current == q[|q| - 1]
    requires forall r :: h < r < LEVELS ==> s.rings[r] == []
    ensures JustDispatched(Schedule(s), h, Rotated(q)) && Gained(s.pcbs, Schedule(s).pcbs, q[0], 0)
  {
    hide Select, SwitchTo, Schedule, JustDispatched, Rotated;
    var a := AfterPutBack(s, h, q);
    DispatchHead(a, h, q);
  }

  lemma {:induction false} HighestIs(rings: seq<seq<Process>>, h: nat, from: nat)
    requires |rings| == LEVELS && h < from <= LEVELS && |rings[h]| > 0
    requires forall r :: h < r < from ==> |rings[r]| == 0
    ensures Highest(rings, from) == h
  {
  }

  lemma TickEndsQuantum(s: Sched)
    requires Sane(s) && s.current != null && s.pcbs[s.current].quantum == 1
    ensures var b := s.pcbs[s.current];
            var v := WithPcb(s, s.current, Pcb(b.state, 0, b.totalTime + 1));
            Sane(v) && Tick(s) == Schedule(v)
  {
    hide Schedule;
  }

  lemma GainedThenNothing(s: Sched, b: Pcb, after: map<Process, Pcb>, x: Process, n: nat)
    requires s.current != null && s.current in s.pcbs && b.totalTime == s.pcbs[s.current].totalTime + n
    requires Gained(WithPcb(s, s.current, b).pcbs, after, x, 0)
    ensures Gained(s.pcbs, after, s.current, n)
  {
  }

  /** A whole quantum of ticks. */
  ghost function Turn(s: Sched): (t: Sched)
    requires Sane(s)
    ensures Sane(t)
  {
    Ticks(s, DEFAULT_QUANTUM)
  }

  ghost function Turns(s: Sched, j: nat): (t: Sched)
    requires Sane(s)
    ensures Sane(t)
  {
    if j == 0 then s else Turn(Turns(s, j - 1))
  }

  lemma {:induction false} TurnsAreTicks(s: Sched, j: nat)
    requires Sane(s)
    ensures Turns(s, j) == Ticks(s, j * DEFAULT_QUANTUM)
  {
    hide Tick, Sane;
    if j == 0 {
    } else {
      TurnsAreTicks(s, j - 1);
      TicksAdd(s, (j - 1) * DEFAULT_QUANTUM, DEFAULT_QUANTUM);
    }
  }

  lemma OneTurn(s: Sched, h: nat, q: seq<Process>)
    requires JustDispatched(s, h, q)
    ensures var t := Turn(s);
            JustDispatched(t, h, Rotated(q)) && Gained(s.pcbs, t.pcbs, q[|q| - 1], DEFAULT_QUANTUM)
  {
    var b := s.pcbs[s.current];
    var spent := Pcb(b.state, 0, b.totalTime + DEFAULT_QUANTUM);
    var v := WithPcb(s, s.current, spent);
    QuantumEnds(s);
    hide Turn, Schedule, Rotated, Sane, Gained, Distinct;
    HandOver(v, h, q);
    GainedThenNothing(s, spent, Schedule(v).pcbs, q[0], DEFAULT_QUANTUM);
  }

  /** The last tick of a quantum, whatever was on the clock. */
  lemma LastUnit(s: Sched, state: ProcState, total: nat)
    requires Sane(s) && s.current != null
    ensures var u, v := WithPcb(s, s.current, Pcb(state, 1, total)), WithPcb(s, s.current, Pcb(state, 0, total + 1));
            Sane(u) && Sane(v) && Tick(u) == Schedule(v)
  {
    var u := WithPcb(s, s.current, Pcb(state, 1, total));
    WithPcbFacts(s, s.current, Pcb(state, 1, total));
    WithPcbFacts(s, s.current, Pcb(state, 0, total + 1));
    WithPcbTwice(s, s.current, Pcb(state, 1, total), Pcb(state, 0, total + 1));
    hide Tick, Schedule, Sane, WithPcb;
    TickEndsQuantum(u);
  }

  /** A whole quantum of ticks spends it all and then reschedules. */
  lemma QuantumEnds(s: Sched)
    requires Sane(s) && s.current != null && s.pcbs[s.current].quantum == DEFAULT_QUANTUM
    ensures var b := s.pcbs[s.current];
            var v := WithPcb(s, s.current, Pcb(b.state, 0, b.totalTime + DEFAULT_QUANTUM));
            Sane(v) && Turn(s) == Schedule(v)
  {
    var state, total := s.pcbs[s.current].state, s.pcbs[s.current].totalTime + DEFAULT_QUANTUM - 1;
    hide Tick, Ticks, Turn, Schedule, Sane, WithPcb;
    OneUnitLeft(s);
    LastUnit(s, state, total);
  }

  lemma OneUnitLeft(s: Sched)
    requires Sane(s) && s.current != null && s.pcbs[s.current].quantum == DEFAULT_QUANTUM
    ensures var b := s.pcbs[s.current];
            var u := WithPcb(s, s.current, Pcb(b.state, 1, b.totalTime + DEFAULT_QUANTUM - 1));
            Sane(u) && Turn(s) == Tick(u)
  {
    hide Tick, Ticks, Turn, WithPcb;
    LastTickOfTurn(s, DEFAULT_QUANTUM - 1);
    QuantumRunsDown(s, DEFAULT_QUANTUM - 1);
  }

  lemma LastTickOfTurn(s: Sched, n: nat)
    requires Sane(s) && n + 1 == DEFAULT_QUANTUM
    ensures Turn(s) == Tick(Ticks(s, n))
  {
    hide Tick, Sane;
  }

  /** The ring as it stands after j turns. */
  ghost function Turned(q: seq<Process>, j: nat): seq<Process>
    requires j <= |q|
  {
    q[j..] + q[..j]
  }

  lemma TurnedFacts(q: seq<Process>, j: nat)
    requires j < |q|
    ensures Turned(q, 0) == q && Turned(q, |q|) == q
    ensures |Turned(q, j)| == |q| && Rotated(Turned(q, j)) == Turned(q, j + 1)
    ensures Turned(q, j)[|q| - 1] == if j == 0 then q[|q| - 1] else q[j - 1]
  {
  }

  /** Which of the first j turns is process i's: the one just dispatched first, then the ring in order. */
  ghost function TurnOf(q: seq<Process>, i: nat): nat
    requires i < |q|
  {
    if i == |q| - 1 then 0 else i + 1
  }

  /** Every process of the ring that had one of the first j turns has gained one quantum, no other anything. */
  ghost predicate Shared(q: seq<Process>, j: nat, before: map<Process, Pcb>, after: map<Process, Pcb>) {
    && after.Keys == before.Keys
    && (forall i :: 0 <= i < |q| ==> q[i] in before)
    && (forall i :: 0 <= i < |q| ==> after[q[i]].totalTime == before[q[i]].totalTime + (if TurnOf(q, i) < j then DEFAULT_QUANTUM else 0))
    && (forall x :: x in before && x !in q ==> after[x].totalTime == before[x].totalTime)
  }

  lemma SharedStep(q: seq<Process>, j: nat, m0: map<Process, Pcb>, m1: map<Process, Pcb>, m2: map<Process, Pcb>)
    requires Distinct(q) && j < |q| && Shared(q, j, m0, m1)
    requires Gained(m1, m2, if j == 0 then q[|q| - 1] else q[j - 1], DEFAULT_QUANTUM)
    ensures Shared(q, j + 1, m0, m2)
  {
    var k := if j == 0 then |q| - 1 else j - 1;
    forall i | 0 <= i < |q|
      ensures q[i] in m0 && m2[q[i]].totalTime == m0[q[i]].totalTime + (if TurnOf(q, i) < j + 1 then DEFAULT_QUANTUM else 0)
    {
      assert i == k || q[i] != q[k];
    }
    assert q[k] in q;
  }

  lemma {:induction false} TurnsInOrder(s: Sched, h: nat, q: seq<Process>, j: nat)
    requires JustDispatched(s, h, q) && j <= |q|
    ensures JustDispatched(Turns(s, j), h, Turned(q, j)) && Shared(q, j, s.pcbs, Turns(s, j).pcbs)
    decreases j
  {
    hide Turn, Rotated, Gained, Turned, Sane, Shared, Distinct;
    if j == 0 {
      NoTurnsYet(s, h, q);
    } else {
      TurnsInOrder(s, h, q, j - 1);
      TurnedFacts(q, j - 1);
      OneTurn(Turns(s, j - 1), h, Turned(q, j - 1));
      DispatchedDistinct(s, h, q);
      SharedStep(q, j - 1, s.pcbs, Turns(s, j - 1).pcbs, Turns(s, j).pcbs);
    }
  }

  lemma NoTurnsYet(s: Sched, h: nat, q: seq<Process>)
    requires JustDispatched(s, h, q)
    ensures Turned(q, 0) == q && Shared(q, 0, s.pcbs, s.pcbs)
  {
    RingInPcbs(s, h);
  }

  lemma DispatchedDistinct(s: Sched, h: nat, q: seq<Process>)
    requires JustDispatched(s, h, q)
    ensures Distinct(q)
  {
  }

  lemma RingInPcbs(s: Sched, h: nat)
    requires Sane(s) && h < LEVELS
    ensures Distinct(s.rings[h]) && forall i :: 0 <= i < |s.rings[h]| ==> s.rings[h][i] in s.pcbs
  {
    assert forall i :: 0 <= i < |s.rings[h]| ==> s.rings[h][i] in s.rings[h];
  }

  /**
   With n processes in the highest ring in use, n quanta of ticks just after a dispatch give
   each of them exactly one quantum of 50 ticks and bring back the same ring and running process.
   */
  lemma EqualShares(s: Sched, h: nat, q: seq<Process>)
    requires JustDispatched(s, h, q)
    ensures var t := Ticks(s, |q| * 50);
            && JustDispatched(t, h, q) && t.current == s.current
            && t.pcbs.Keys == s.pcbs.Keys
            && forall x :: x in s.pcbs ==> t.pcbs[x].totalTime == s.pcbs[x].totalTime + (if x in q then 50 else 0)
  {
    hide Ticks, Sane, Turned, Turns, Shared;
    TurnsInOrder(s, h, q, |q|);
    TurnsAreTicks(s, |q|);
    TurnedFacts(q, 0);
    AllShared(q, s.pcbs, Turns(s, |q|).pcbs);
  }

  lemma AllShared(q: seq<Process>, was: map<Process, Pcb>, now: map<Process, Pcb>)
    requires Shared(q, |q|, was, now)
    ensures now.Keys == was.Keys
    ensures forall x :: x in was ==> now[x].totalTime == was[x].totalTime + (if x in q then DEFAULT_QUANTUM else 0)
  {
    forall x | x in q
      ensures x in was && now[x].totalTime == was[x].totalTime + DEFAULT_QUANTUM
    {
      var i :| 0 <= i < |q| && q[i] == x;
    }
  }

  // ----- who runs

  lemma InRing(s: Sched, r: nat, p: Process)
    requires Sane(s) && r < LEVELS && p in s.rings[r]
    ensures r == if p.priority < 3 then p.priority else 3
  {
    assert Level(p) == r;
  }

  lemma SelectedIsHighest(s: Sched)
    requires Sane(s) && s.current != null
    ensures var (t, next) := Select(s);
            && |t.rings| == LEVELS && next != null
            && forall r, p :: 0 <= r < LEVELS && p in t.rings[r] ==> p.priority <= next.priority || next.priority >= 3
  {
    var (t, next) := Select(s);
    SelectSane(s);
    var h := Highest(s.rings);
    forall r, p | 0 <= r < LEVELS && p in t.rings[r]
      ensures p.priority <= next.priority || next.priority >= 3
    {
      InRing(t, r, p);
      RotatedSame(s.rings[h]);
      InRing(s, h, next);
    }
  }

  /**
   After a reschedule no process that waits in a ring has a higher priority than the running one, as
   far as priorities are told apart: all from 3 on are one.
   */
  lemma HighestPriorityRuns(s: Sched)
    requires Sane(s) && s.current != null
    ensures var t := Schedule(s);
            && |t.rings| == LEVELS && t.current != null
            && forall r, p :: 0 <= r < LEVELS && p in t.rings[r] ==> p.priority <= t.current.priority || t.current.priority >= 3
  {
    AddSane(s, s.current);
    var a := if s.pcbs[s.current].state == Running then AddTo(s, s.current) else s;
    SelectSane(a);
    hide Sane, Select, AddTo;
    SelectedIsHighest(a);
  }

  /** A process in no ring joins the end of the ring of its priority, ready and with a quantum of 50. */
  lemma JoinsItsRing(s: Sched, p: Process)
    requires Sane(s) && p in s.pcbs && forall r :: 0 <= r < LEVELS ==> p !in s.rings[r]
    ensures var t, l := AddTo(s, p), if p.priority < 3 then p.priority else 3;
            && t.rings == s.rings[l := s.rings[l] + [p]] && t.current == s.current
            && t.pcbs == s.pcbs[p := Pcb(Ready, 50, s.pcbs[p].totalTime)]
  {
  }

  /**
   The process a reschedule gives the CPU to is running, and the one that had it is ready, each
   with a new quantum. One that keeps the CPU is ready as well, although it runs.
   */
  lemma StatesAfterSchedule(s: Sched)
    requires Sane(s) && s.current != null && s.pcbs[s.current].state == Running
    ensures var t := Schedule(s);
            && t.current != null && t.current in t.pcbs && t.pcbs.Keys == s.pcbs.Keys
            && t.pcbs[t.current].quantum == 50 && t.pcbs[s.current].quantum == 50
            && t.pcbs[s.current].state == Ready && (t.current != s.current ==> t.pcbs[t.current].state == Running)
            && forall x :: x in s.pcbs ==>
                 && t.pcbs[x].totalTime == s.pcbs[x].totalTime
                 && (x != s.current && x != t.current ==> t.pcbs[x] == s.pcbs[x])
  {
    AddSane(s, s.current);
    SelectSane(AddTo(s, s.current));
  }

  // ----- what an add does to a running neighbour

  /**
   A process added to a ring survives the next reschedule exactly when the running process is
   not itself a member of that ring, marked running, about to be linked behind the newcomer.
   */
  lemma NewcomerSurvivesIff(s: Sched, z: Process)
    requires Sane(s) && s.current != null && z in s.pcbs && z != s.current
    requires forall r :: 0 <= r < LEVELS ==> z !in s.rings[r]
    ensures (AddSane(s, z);
             var u := Schedule(AddTo(s, z));
             z in u.rings[Level(z)] <==> !(s.pcbs[s.current].state == Running && s.current in s.rings[Level(z)]))
  {
    AddSane(s, z);
    var q := s.rings[Level(z)];
    var a := AddTo(s, z);
    assert a.rings[Level(z)] == q + [z] && a.pcbs[s.current] == s.pcbs[s.current];
    var b := if a.pcbs[s.current].state == Running then AddTo(a, s.current) else a;
    AddSane(a, s.current);
    if s.pcbs[s.current].state == Running && s.current in q {
      assert Level(s.current) == Level(z);
      CutBehind(q, s.current, z);
    } else {
      assert z in b.rings[Level(z)];
    }
    var h := Highest(b.rings);
    if h >= 0 {
      RotatedSame(b.rings[h]);
    }
  }

  lemma CutBehind(q: seq<Process>, p: Process, z: Process)
    requires Distinct(q) && p in q && z !in q
    ensures z !in Added(q + [z], p)
  {
    var k := IndexIn(q, p);
    assert (q + [z])[k] == p;
    IndexUnique(q + [z], k);
    assert (q + [z])[..k + 1] == q[..k + 1];
  }

  // ----- the rings in place

  function Succ(q: seq<Process>, i: nat): Process
    requires i < |q|
  {
    if i + 1 < |q| then q[i + 1] else q[0]
  }

  /** Following `nexts` from `head` goes through `q` and back to its start. */
  ghost predicate IsRing(head: Process?, q: seq<Process>, nexts: map<Process, Process?>) {
    (if |q| == 0 then head == null else head == q[0])
    && forall i {:trigger Succ(q, i)} :: 0 <= i < |q| ==> q[i] in nexts && nexts[q[i]] == Succ(q, i)
  }

  lemma RingAt(head: Process?, q: seq<Process>, nexts: map<Process, Process?>, i: nat)
    requires IsRing(head, q, nexts) && i < |q|
    ensures q[i] in nexts && nexts[q[i]] == Succ(q, i)
  {
    var next := Succ(q, i);
  }

  lemma DistinctEnds(q: seq<Process>, k: nat)
    requires Distinct(q) && k < |q| && Succ(q, k) == q[0]
    ensures k == |q| - 1
  {
  }

  /** Pointing the last element at p and p at the head makes the ring of Added. */
  lemma LinkedBehind(head: Process?, q: seq<Process>, nexts: map<Process, Process?>, p: Process)
    requires IsRing(head, q, nexts) && Distinct(q) && |q| > 0
    ensures IsRing(head, Added(q, p), nexts[q[|q| - 1] := p][p := head])
  {
    var after := nexts[q[|q| - 1] := p][p := head];
    var r := Added(q, p);
    forall i | 0 <= i < |r|
      ensures r[i] in after && after[r[i]] == Succ(r, i)
    {
      if i < |q| {
        RingAt(head, q, nexts, i);
      }
    }
  }

  /** Bypassing p from its predecessor makes the ring of Removed, headed by p's successor if p was the head. */
  lemma Bypassed(head: Process?, q: seq<Process>, nexts: map<Process, Process?>, k: nat)
    requires IsRing(head, q, nexts) && Distinct(q) && |q| > 1 && k < |q|
    ensures var p := Succ(q, k);
            p in nexts
            && IsRing(if p == head then nexts[p] else head, Removed(q, p), nexts[q[k] := nexts[p]])
  {
    var p := Succ(q, k);
    var j := if k + 1 < |q| then k + 1 else 0;
    RingAt(head, q, nexts, j);
    IndexUnique(q, j);
    var r := Removed(q, p);
    var after := nexts[q[k] := nexts[p]];
    forall i | 0 <= i < |r|
      ensures r[i] in after && after[r[i]] == Succ(r, i)
    {
      var m := if i < j then i else i + 1;
      RingAt(head, q, nexts, m);
      assert r[i] == q[m];
      assert m != k || m == |q| - 1 || q[m + 1] == p;
    }
  }

  /** A ring none of whose members was touched is still a ring. */
  lemma Untouched(head: Process?, q: seq<Process>, before: map<Process, Process?>, after: map<Process, Process?>)
    requires IsRing(head, q, before) && forall x :: x in q && x in before ==> x in after && after[x] == before[x]
    ensures IsRing(head, q, after)
  {
    forall i | 0 <= i < |q|
      ensures q[i] in after && after[q[i]] == Succ(q, i)
    {
      RingAt(head, q, before, i);
    }
  }

  /** Moving the head one on turns the ring by one. */
  lemma HeadMoved(head: Process?, q: seq<Process>, nexts: map<Process, Process?>)
    requires IsRing(head, q, nexts) && |q| > 0
    ensures q[0] in nexts && IsRing(nexts[q[0]], Rotated(q), nexts)
  {
    RingAt(head, q, nexts, 0);
    var r := Rotated(q);
    forall i | 0 <= i < |r|
      ensures r[i] in nexts && nexts[r[i]] == Succ(r, i)
    {
      RingAt(head, q, nexts, if i + 1 < |q| then i + 1 else 0);
    }
  }

  lemma LevelsApart(s: Sched, prio: nat)
    requires Sane(s) && prio < LEVELS
    ensures forall r, x :: 0 <= r < LEVELS && r != prio && x in s.rings[r] ==> x !in s.rings[prio]
  {
    forall r, x | 0 <= r < LEVELS && r != prio && x in s.rings[r]
      ensures x !in s.rings[prio]
    {
      assert Level(x) == r;
    }
  }

  class RingScheduler {
    const ready: array<Process?>
    var current: Process?
    var idle: Process?

    ghost var rings: seq<seq<Process>>
    ghost var procs: set<Process>

    ghost function Snapshot(): Sched
      reads this, procs
    {
      Sched(rings, current, idle, map p | p in procs :: Pcb(p.state, p.quantum, p.totalTime))
    }

    ghost function Nexts(): map<Process, Process?>
      reads this, procs
    {
      map p | p in procs :: p.next
    }

    /** scheduler_init, with the idle process running. */
    constructor (idle: Process)
      ensures Valid() && procs == {idle} && current == idle && rings == [[], [], [], []] && fresh(ready)
    {
      ready := new Process?[LEVELS](i => null);
      current, this.idle := idle, idle;
      rings, procs := [[], [], [], []], {idle};
    }

    /** A newly created process becomes known. */
    ghost method Admit(p: Process)
      requires Valid()
      modifies this`procs
      ensures Valid() && procs == old(procs) + {p} && rings == old(rings)
    {
      ghost var nexts := Nexts();
      procs := procs + {p};
      forall r | 0 <= r < LEVELS
        ensures IsRing(ready[r], rings[r], Nexts())
      {
        Untouched(ready[r], rings[r], nexts, Nexts());
      }
      assert old(Snapshot()).rings == rings && forall x :: x in old(Snapshot()).pcbs ==> x in Snapshot().pcbs;
    }

    ghost predicate Linked()
      reads this, ready, procs
    {
      ready.Length == LEVELS && |rings| == LEVELS && forall r :: 0 <= r < LEVELS ==> IsRing(ready[r], rings[r], Nexts())
    }

    ghost predicate Valid()
      reads this, ready, procs
    {
      Linked() && Sane(Snapshot())
    }

    /** Walks to the member whose `next` is the head. */
    method FindLast(prio: nat) returns (last: Process)
      requires Linked() && prio < LEVELS && |rings[prio]| > 0 && Distinct(rings[prio])
      ensures last == rings[prio][|rings[prio]| - 1] && last in procs
    {
      ghost var q := rings[prio];
      ghost var k := 0;
      RingAt(ready[prio], q, Nexts(), 0);
      last := ready[prio];
      while last.next != ready[prio]
        invariant k < |q| && last == q[k] && last in procs && last.next == Succ(q, k)
        decreases |q| - k
      {
        assert k + 1 < |q|;
        RingAt(ready[prio], q, Nexts(), k + 1);
        last, k := last.next, k + 1;
      }
      DistinctEnds(q, k);
    }

    /** Links p behind the last member of a ring, or alone into an empty one. */
    method Link(p: Process, prio: nat)
      requires Linked() && prio < LEVELS && p in procs && Distinct(rings[prio])
      requires forall r, x :: 0 <= r < LEVELS && r != prio && x in rings[r] ==> x != p && x !in rings[prio]
      modifies this`rings, ready, procs`next
      ensures Linked() && rings == old(rings)[prio := Added(old(rings)[prio], p)]
    {
      ghost var nexts, heads, q := Nexts(), ready[..], rings[prio];
      if ready[prio] == null {
        ready[prio] := p;
        p.next := p;
        assert Nexts() == nexts[p := p];
        assert Added(q, p) == [p] && Succ([p], 0) == p;
        assert IsRing(ready[prio], Added(q, p), Nexts());
      } else {
        var last := FindLast(prio);
        last.next := p;
        p.next := ready[prio];
        LinkedBehind(ready[prio], q, nexts, p);
        assert last in q;
        ghost var linked: map<Process, Process?> := nexts[last := p];
        assert Nexts() == linked[p := ready[prio]];
        assert IsRing(ready[prio], Added(q, p), Nexts());
      }
      assert forall x :: x in procs && x != p && x !in q ==> x.next == nexts[x];
      ghost var after := Nexts();
      rings := rings[prio := Added(q, p)];
      assert Nexts() == after;
      forall r | 0 <= r < LEVELS && r != prio
        ensures IsRing(ready[r], rings[r], Nexts())
      {
        assert ready[r] == heads[r];
        Untouched(heads[r], rings[r], nexts, Nexts());
      }
    }

    /** scheduler_add_process. */
    method AddProcess(p: Process?)
      requires Valid() && (p != null ==> p in procs)
      modifies this`rings, ready, procs
      ensures Valid()
      ensures Snapshot() == if p == null then old(Snapshot()) else AddTo(old(Snapshot()), p)
    {
      if p == null {
        return;
      }
      ghost var s, nexts := Snapshot(), Nexts();
      AddSane(s, p);
      p.state := Ready;
      p.quantum := DEFAULT_QUANTUM;
      assert Nexts() == nexts;
      LevelsApart(s, Level(p));
      assert forall r, x :: 0 <= r < LEVELS && r != Level(p) && x in rings[r] ==> x != p by {
        assert forall r, x :: 0 <= r < LEVELS && x in s.rings[r] ==> Level(x) == r;
      }
      Link(p, if p.priority > 3 then 3 else p.priority);
      assert Snapshot() == AddTo(s, p);
    }

    /** Bypasses p from its predecessor x, which is member k of its ring. */
    method Unlink(x: Process, p: Process, prio: nat, ghost k: nat)
      requires Linked() && prio < LEVELS && |rings[prio]| > 1 && Distinct(rings[prio])
      requires k < |rings[prio]| && rings[prio][k] == x && x.next == p && x in procs
      requires forall r :: 0 <= r < LEVELS && r != prio ==> x !in rings[r]
      modifies this`rings, ready, x`next
      ensures Linked() && rings == old(rings)[prio := Removed(old(rings)[prio], p)]
    {
      ghost var nexts, heads, q := Nexts(), ready[..], rings[prio];
      RingAt(ready[prio], q, nexts, k);
      Bypassed(ready[prio], q, nexts, k);
      var after := p.next;
      x.next := after;
      if ready[prio] == p {
        ready[prio] := after;
      }
      assert Nexts() == nexts[x := nexts[p]];
      assert IsRing(ready[prio], Removed(q, p), Nexts());
      ghost var linked := Nexts();
      rings := rings[prio := Removed(q, p)];
      assert Nexts() == linked;
      forall r | 0 <= r < LEVELS && r != prio
        ensures IsRing(ready[r], rings[r], Nexts())
      {
        assert ready[r] == heads[r];
        Untouched(heads[r], rings[r], nexts, Nexts());
      }
    }

    /** The member before p, if p is in the ring at all. */
    method FindBefore(p: Process, prio: nat) returns (x: Process?, ghost k: nat)
      requires Linked() && prio < LEVELS && |rings[prio]| > 0 && Distinct(rings[prio])
      ensures x == null ==> p !in rings[prio]
      ensures x != null ==> k < |rings[prio]| && rings[prio][k] == x && x.next == p && x in procs && p in rings[prio]
    {
      ghost var q := rings[prio];
      x, k := ready[prio], 0;
      while true
        invariant k < |q| && x == q[k]
        invariant forall i :: 0 <= i < k ==> Succ(q, i) != p
        decreases |q| - k
      {
        RingAt(ready[prio], q, Nexts(), k);
        if x.next == p {
          return;
        }
        x := x.next;
        if x == ready[prio] {
          DistinctEnds(q, k);
          NobodysSuccessor(q, p);
          return null, k;
        }
        k := k + 1;
      }
    }

    /** scheduler_remove_process. */
    method RemoveProcess(p: Process?)
      requires Valid() && (p != null ==> p in procs)
      modifies this`rings, ready, procs`next
      ensures Valid()
      ensures Snapshot() == if p == null then old(Snapshot()) else RemoveFrom(old(Snapshot()), p)
    {
      if p == null {
        return;
      }
      ghost var s := Snapshot();
      RemoveSane(s, p);
      var prio := if p.priority > 3 then 3 else p.priority;
      assert s.rings == rings && Distinct(rings[prio]);
      if ready[prio] == null {
        assert s == RemoveFrom(s, p);
        return;
      }
      RingAt(ready[prio], rings[prio], Nexts(), 0);
      if ready[prio].next == ready[prio] {
        EmptyRing(prio);
        assert Snapshot() == RemoveFrom(s, p);
        return;
      }
      ghost var k;
      var x;
      x, k := FindBefore(p, prio);
      if x == null {
        assert s == RemoveFrom(s, p);
      } else {
        assert x in rings[prio];
        LevelsApart(s, prio);
        Unlink(x, p, prio, k);
        assert Snapshot() == RemoveFrom(s, p);
      }
    }

    method EmptyRing(prio: nat)
      requires Linked() && prio < LEVELS
      modifies this`rings, ready
      ensures Linked() && rings == old(rings)[prio := []]
    {
      ghost var nexts, heads := Nexts(), ready[..];
      ready[prio] := null;
      rings := rings[prio := []];
      assert Nexts() == nexts;
      assert forall r :: 0 <= r < LEVELS && r != prio ==> ready[r] == heads[r];
    }

    /** Moves the head of a ring on by one. */
    method Rotate(prio: nat)
      requires Linked() && prio < LEVELS && |rings[prio]| > 0
      modifies this`rings, ready
      ensures Linked() && rings == old(rings)[prio := Rotated(old(rings)[prio])]
    {
      ghost var nexts, heads := Nexts(), ready[..];
      RingAt(ready[prio], rings[prio], nexts, 0);
      HeadMoved(ready[prio], rings[prio], nexts);
      ready[prio] := ready[prio].next;
      rings := rings[prio := Rotated(rings[prio])];
      assert Nexts() == nexts;
      assert forall r :: 0 <= r < LEVELS && r != prio ==> ready[r] == heads[r];
    }

    /** select_next_process: the highest ring in use gives its head and turns; else the idle process. */
    method SelectNext() returns (next: Process?)
      requires Valid() && current != null
      modifies this`rings, ready
      ensures Valid() && (Snapshot(), next) == Select(old(Snapshot()))
    {
      ghost var s := Snapshot();
      SelectSane(s);
      var prio := 3;
      while prio >= 0
        invariant -1 <= prio <= 3 && Highest(rings) == Highest(rings, prio + 1)
        invariant Valid() && Snapshot() == s
      {
        assert IsRing(ready[prio], rings[prio], Nexts());
        if ready[prio] != null {
          next := ready[prio];
          Rotate(prio);
          assert Snapshot() == Select(s).0;
          return;
        }
        prio := prio - 1;
      }
      next := idle;
    }

    /** Gives the CPU to `next`, which may be the process that has it. */
    method Dispatch(next: Process)
      requires Valid() && current != null && next in procs
      modifies this`current, procs
      ensures Valid() && Snapshot() == SwitchTo(old(Snapshot()), next)
    {
      ghost var b, nexts := Snapshot(), Nexts();
      if next == current {
        current.quantum := DEFAULT_QUANTUM;
      } else {
        current := next;
        next.state := Running;
        next.quantum := DEFAULT_QUANTUM;
      }
      assert Nexts() == nexts;
      assert Snapshot() == SwitchTo(b, next);
    }

    /** schedule, up to the context switch. */
    method Reschedule()
      requires Valid()
      modifies this, ready, procs
      ensures Valid() && procs == old(procs) && Snapshot() == Schedule(old(Snapshot()))
    {
      if current == null {
        return;
      }
      ghost var s := Snapshot();
      AddSane(s, current);
      if current.state == Running {
        AddProcess(current);
      }
      ghost var a := Snapshot();
      assert a == if s.pcbs[s.current].state == Running then AddTo(s, s.current) else s;
      SelectSane(a);
      hide Linked, AddTo, Select, SwitchTo, Sane;
      var next := SelectNext();
      Dispatch(next);
      assert Snapshot() == Schedule(s);
    }

    /** scheduler_tick. */
    method OnTick()
      requires Valid()
      modifies this, ready, procs
      ensures Valid() && procs == old(procs) && Snapshot() == Tick(old(Snapshot()))
    {
      if current == null {
        return;
      }
      ghost var s := Snapshot();
      if current.quantum > 0 {
        current.quantum := current.quantum - 1;
        current.totalTime := current.totalTime + 1;
        assert Snapshot() == WithPcb(s, current, Pcb(s.pcbs[current].state, s.pcbs[current].quantum - 1, s.pcbs[current].totalTime + 1));
      }
      if current.quantum == 0 {
        Reschedule();
      }
    }

    /** yield: gives up the rest of the quantum. */
    method Yield()
      requires Valid() && current != null
      modifies this, ready, procs
      ensures Valid() && procs == old(procs)
      ensures var s := old(Snapshot());
              Snapshot() == Schedule(WithPcb(s, s.current, s.pcbs[s.current].(quantum := 0)))
    {
      ghost var s := Snapshot();
      current.quantum := 0;
      assert Snapshot() == WithPcb(s, current, s.pcbs[current].(quantum := 0));
      Reschedule();
    }
  }

  lemma NobodysSuccessor(q: seq<Process>, p: Process)
    requires forall i :: 0 <= i < |q| ==> Succ(q, i) != p
    ensures p !in q
  {
    forall j | 0 <= j < |q|
      ensures q[j] != p
    {
      assert Succ(q, if j == 0 then |q| - 1 else j - 1) == q[j];
    }
  }
  // ----- a newcomer that is lost, from the first start on

  lemma HighestIsOne(rings: seq<seq<Process>>)
    requires |rings| == LEVELS && |rings[1]| > 0 && |rings[2]| == 0 && |rings[3]| == 0
    ensures Highest(rings) == 1
  {
  }

  lemma OnlyOneRuns(s: Sched, a: Process)
    requires Sane(s) && s.current != null && s.current != a && s.pcbs[s.current].state == Ready
    requires s.rings == [[], [], [], []] && a in s.pcbs && Level(a) == 1
    ensures (AddSane(s, a);
             var t := Schedule(AddTo(s, a));
             t.rings == [[], [a], [], []] && t.current == a && t.pcbs[a].state == Running)
  {
    var b := AddTo(s, a);
    assert Added([], a) == [a] && [[], [], [], []][1 := [a]] == [[], [a], [], []];
    assert b.rings == [[], [a], [], []];
    HighestIsOne(b.rings);
    assert Rotated([a]) == [a];
  }

  lemma NewcomerOvertaken(s: Sched, a: Process, z: Process)
    requires Sane(s) && s.current == a && s.pcbs[a].state == Running && s.rings == [[], [a], [], []]
    requires z != a && z in s.pcbs && Level(z) == 1 && Level(a) == 1
    ensures (AddSane(s, z);
             var t := Schedule(AddTo(s, z));
             t.rings == [[], [a], [], []] && t.current == a && t.pcbs[z].state == Ready)
  {
    AddSane(s, z);
    var b := AddTo(s, z);
    assert z !in [a] && Added([a], z) == [a, z];
    assert b.rings == [[], [a], [], []][1 := [a, z]] == [[], [a, z], [], []];
    var c := AddTo(b, a);
    assert IndexIn([a, z], a) == 0 && Added([a, z], a) == [a];
    assert c.rings == [[], [a], [], []];
    HighestIsOne(c.rings);
    assert Rotated([a]) == [a];
  }

  /** A process is added, and the CPU rescheduled. */
  method AddAndReschedule(sched: RingScheduler, p: Process)
    requires sched.Valid() && p in sched.procs
    modifies sched, sched.ready, sched.procs
    ensures sched.Valid() && sched.procs == old(sched.procs)
    ensures (AddSane(old(sched.Snapshot()), p);
             sched.Snapshot() == Schedule(AddTo(old(sched.Snapshot()), p)))
  {
    AddSane(sched.Snapshot(), p);
    hide RingScheduler.Linked, Sane, Schedule, AddTo;
    sched.AddProcess(p);
    sched.Reschedule();
  }

  method StartWith(a: Process) returns (sched: RingScheduler)
    requires a.priority == 1
    ensures fresh(sched) && fresh(sched.ready) && fresh(sched.procs - {a}) && sched.Valid()
    ensures a in sched.procs && sched.rings == [[], [], [], []]
    ensures sched.current != null && sched.current != a && sched.current in sched.procs && sched.current.state == Ready
  {
    var idle := new Process(0);
    sched := new RingScheduler(idle);
    sched.Admit(a);
  }

  method RunAlone() returns (sched: RingScheduler, a: Process)
    ensures fresh(sched) && fresh(sched.ready) && fresh(sched.procs) && sched.Valid()
    ensures a in sched.procs && a.priority == 1 && a.state == Running
    ensures sched.current == a && sched.rings == [[], [a], [], []]
  {
    a := new Process(1);
    sched := StartWith(a);
    OnlyOneRuns(sched.Snapshot(), a);
    hide RingScheduler.Linked, Sane, Schedule, AddTo, Added, Highest;
    AddAndReschedule(sched, a);
    assert sched.Snapshot().pcbs[a].state == Running;
  }

  /** A process runs alone, a second one of its priority is added, and at the next reschedule it is in no ring. */
  method LoseNewcomer() returns (sched: RingScheduler, a: Process, z: Process)
    ensures fresh(sched) && sched.Valid() && a != z && a.priority == z.priority == 1
    ensures sched.current == a && sched.rings == [[], [a], [], []] && z in sched.procs && z.state == Ready
  {
    sched, a := RunAlone();
    z := new Process(1);
    sched.Admit(z);
    NewcomerOvertaken(sched.Snapshot(), a, z);
    hide RingScheduler.Linked, Sane, Schedule, AddTo;
    AddAndReschedule(sched, z);
    assert sched.Snapshot().pcbs[z].state == Ready;
  }
}
