/**
 The job entry subsystem: a fixed table of batch jobs, a pool of address spaces, and a
 dispatcher that runs the waiting jobs to completion in order of priority. What goes to the
 console is a ghost log.
 */
module Jes {
  import opened Wrappers
  import Words

  const MAX_ASID := 8
  const MAX_JOBS := 16

  datatype JobState = Input | Active | Output | Purge

  datatype AddressSpace = AddressSpace(asid: nat, inUse: bool)

  datatype Job = Job(id: nat, name: string, cls: char, priority: nat, state: JobState, asid: nat, steps: nat)

  type Table = seq<Option<Job>>

  datatype Event =
    | Activated(job: Job)
    | Stepped(step: nat, steps: nat)
    | OutputReady(job: Job)
    | Purged(job: Job)

  // ----- the order jobs are due in

  predicate IsWaiting(t: Table, i: nat) {
    i < |t| && t[i].Some? && t[i].value.state == Input
  }

  /** Slot i is dispatched before slot j: higher priority first, then the earlier slot. */
  predicate Before(t: Table, i: nat, j: nat)
    requires i < |t| && t[i].Some? && j < |t| && t[j].Some?
  {
    t[i].value.priority > t[j].value.priority || (t[i].value.priority == t[j].value.priority && i < j)
  }

  /** `order` names every waiting slot once, in the order due: a stable sort by falling priority. */
  ghost predicate IsBatchOrder(t: Table, order: seq<nat>) {
    && (forall k :: 0 <= k < |order| ==> IsWaiting(t, order[k]))
    && (forall i: nat :: IsWaiting(t, i) ==> i in order)
    && (forall k, m :: 0 <= k < m < |order| ==> Before(t, order[k], order[m]))
  }

  /** There is only one such order. */
  lemma {:induction false} BatchOrderUnique(t: Table, a: seq<nat>, b: seq<nat>)
    requires IsBatchOrder(t, a) && IsBatchOrder(t, b)
    ensures a == b
  {
    OrderedSameMembers(t, a, b);
  }

  ghost predicate InOrder(t: Table, order: seq<nat>) {
    && (forall k :: 0 <= k < |order| ==> IsWaiting(t, order[k]))
    && (forall k, m :: 0 <= k < m < |order| ==> Before(t, order[k], order[m]))
  }

  lemma {:induction false} OrderedSameMembers(t: Table, a: seq<nat>, b: seq<nat>)
    requires InOrder(t, a) && InOrder(t, b) && forall i: nat :: i in a <==> i in b
    ensures a == b
    decreases |a|
  {
    assert |b| == 0 || b[0] in b;
    if |a| != 0 {
      assert a[0] in b && b[0] in a;
      assert a[0] == b[0];
      HeadOnce(t, a);
      HeadOnce(t, b);
      forall i: nat
        ensures i in a[1..] <==> i in b[1..]
      {
        assert (i in a <==> i == a[0] || i in a[1..]) && (i in b <==> i == b[0] || i in b[1..]);
      }
      OrderedSameMembers(t, a[1..], b[1..]);
      assert a == [a[0]] + a[1..] && b == [b[0]] + b[1..];
    }
  }

  lemma HeadOnce(t: Table, a: seq<nat>)
    requires InOrder(t, a) && |a| > 0
    ensures a[0] !in a[1..]
  {
    forall m | 1 <= m < |a|
      ensures a[m] != a[0]
    {
      assert IsWaiting(t, a[0]) && IsWaiting(t, a[m]) && Before(t, a[0], a[m]);
    }
  }

  /** It is enough to look at neighbours: of each two the priority falls, or it is the same and the slot rises. */
  lemma BatchOrderIff(t: Table, order: seq<nat>)
    requires forall k :: 0 <= k < |order| ==> IsWaiting(t, order[k])
    ensures IsBatchOrder(t, order) <==>
            (forall i: nat :: i < |t| && t[i].Some? && t[i].value.state == Input ==> i in order) && NeighboursFall(t, order)
  {
    if NeighboursFall(t, order) {
      forall k: nat, m: nat | k < m < |order|
        ensures Before(t, order[k], order[m])
      {
        FallsThroughout(t, order, k, m);
      }
    }
  }

  /** From slot i to slot j the priority falls, or stays and the slot rises. */
  predicate Falls(t: Table, i: nat, j: nat)
    requires IsWaiting(t, i) && IsWaiting(t, j)
  {
    var a, b := t[i].value.priority, t[j].value.priority;
    a > b || (a == b && i < j)
  }

  ghost predicate NeighboursFall(t: Table, order: seq<nat>)
    requires forall k :: 0 <= k < |order| ==> IsWaiting(t, order[k])
  {
    forall k, m :: 0 <= k < |order| && m == k + 1 && m < |order| ==> Falls(t, order[k], order[m])
  }

  lemma {:induction false} FallsThroughout(t: Table, order: seq<nat>, k: nat, m: nat)
    requires (forall i :: 0 <= i < |order| ==> IsWaiting(t, order[i])) && NeighboursFall(t, order) && k < m < |order|
    ensures IsWaiting(t, order[k]) && IsWaiting(t, order[m]) && Before(t, order[k], order[m])
  {
    if k + 1 < m {
      FallsThroughout(t, order, k, m - 1);
    }
  }

  // ----- what a run logs

  ghost function Steps(n: nat, steps: nat): seq<Event> {
    if n == 0 then [] else Steps(n - 1, steps) + [Stepped(n, steps)]
  }

  /** One job's life: INPUT to ACTIVE with an address space, its steps, OUTPUT, PURGE. */
  ghost function LifeOf(job: Job, asid: nat): seq<Event> {
    var active := job.(state := Active, asid := asid);
    [Activated(active)] + Steps(job.steps, job.steps) + [OutputReady(active.(state := Output)), Purged(active.(state := Purge))]
  }

  ghost function LivesOf(t: Table, order: seq<nat>, asid: nat): seq<Event>
    requires forall k :: 0 <= k < |order| ==> IsWaiting(t, order[k])
  {
    if |order| == 0 then []
    else
      assert IsWaiting(t, order[|order| - 1]);
      LivesOf(t, order[..|order| - 1], asid) + LifeOf(t[order[|order| - 1]].value, asid)
  }

  /** The k-th event of a life: activation with the address space, the steps counted from 1, output, purge. */
  lemma {:induction false} LifeAt(job: Job, asid: nat, k: nat)
    requires k < job.steps + 3
    ensures |LifeOf(job, asid)| == job.steps + 3
    ensures var e := LifeOf(job, asid)[k];
            if k == 0 then e == Activated(Job(job.id, job.name, job.cls, job.priority, Active, asid, job.steps))
            else if k <= job.steps then e == Stepped(k, job.steps)
            else if k == job.steps + 1 then e == OutputReady(Job(job.id, job.name, job.cls, job.priority, Output, asid, job.steps))
            else e == Purged(Job(job.id, job.name, job.cls, job.priority, Purge, asid, job.steps))
  {
    StepAt(job.steps, job.steps, if 1 <= k <= job.steps then k else 0);
  }

  lemma {:induction false} StepAt(n: nat, steps: nat, k: nat)
    ensures |Steps(n, steps)| == n && (1 <= k <= n ==> Steps(n, steps)[k - 1] == Stepped(k, steps))
  {
    if n > 0 {
      StepAt(n - 1, steps, if k < n then k else 0);
    }
  }

  /** How many events the first k jobs of an order log: their steps and three more each. */
  ghost function EventsBefore(t: Table, order: seq<nat>, k: nat): nat
    requires k <= |order| && forall i :: 0 <= i < |order| ==> IsWaiting(t, order[i])
  {
    if k == 0 then 0
    else
      assert IsWaiting(t, order[k - 1]);
      EventsBefore(t, order, k - 1) + t[order[k - 1]].value.steps + 3
  }

  lemma {:induction false} EventsOfPrefix(t: Table, order: seq<nat>, n: nat, k: nat)
    requires k <= n <= |order| && forall i :: 0 <= i < |order| ==> IsWaiting(t, order[i])
    ensures EventsBefore(t, order[..n], k) == EventsBefore(t, order, k)
  {
    if k > 0 {
      EventsOfPrefix(t, order, n, k - 1);
    }
  }

  /** One job's life is over before the next one's begins: the k-th lies whole behind those before it. */
  lemma {:induction false} LivesInTurn(t: Table, order: seq<nat>, asid: nat, k: nat)
    requires k < |order| && forall i :: 0 <= i < |order| ==> IsWaiting(t, order[i])
    ensures IsWaiting(t, order[k]) && |LivesOf(t, order, asid)| == EventsBefore(t, order, |order|)
    ensures var job, at := t[order[k]].value, EventsBefore(t, order, k);
            at + job.steps + 3 <= |LivesOf(t, order, asid)|
            && LivesOf(t, order, asid)[at..at + job.steps + 3] == LifeOf(job, asid)
    decreases |order|
  {
    hide LifeOf;
    var n := |order| - 1;
    assert IsWaiting(t, order[k]) && IsWaiting(t, order[n]);
    LifeAt(t[order[n]].value, asid, 0);
    EventsOfPrefix(t, order, n, n);
    EventsOfPrefix(t, order, n, k);
    if k < n {
      LivesInTurn(t, order[..n], asid, k);
    } else if n > 0 {
      LivesInTurn(t, order[..n], asid, 0);
    }
  }

  // ----- a run in progress

  ghost function WaitingSet(t: Table): set<nat> {
    set i: nat | i < |t| && IsWaiting(t, i)
  }

  /** Slot `best` is due before every other waiting slot, or nothing waits. */
  ghost predicate IsDue(t: Table, best: Option<nat>) {
    match best
    case None => forall i: nat :: !IsWaiting(t, i)
    case Some(b) => IsWaiting(t, b) && forall i: nat :: IsWaiting(t, i) && i != b ==> Before(t, b, i)
  }

  ghost predicate AllBefore(t: Table, order: seq<nat>, i: nat)
    requires InOrder(t, order) && IsWaiting(t, i)
  {
    forall k :: 0 <= k < |order| ==> Before(t, order[k], i)
  }

  /** The jobs of `order` have left table `t`, each due before all that is left in `now`. */
  ghost predicate Progress(t: Table, now: Table, order: seq<nat>) {
    && InOrder(t, order) && |now| == |t|
    && (forall i :: 0 <= i < |t| ==> now[i] == if i in order then None else t[i])
    && (forall i: nat :: IsWaiting(now, i) ==> IsWaiting(t, i) && AllBefore(t, order, i))
  }

  lemma ProgressStep(t: Table, now: Table, order: seq<nat>, idx: nat, asid: nat)
    requires Progress(t, now, order) && IsDue(now, Some(idx))
    ensures now[idx] == t[idx] && Progress(t, now[idx := None], order + [idx])
    ensures WaitingSet(now[idx := None]) < WaitingSet(now)
    ensures LivesOf(t, order + [idx], asid) == LivesOf(t, order, asid) + LifeOf(t[idx].value, asid)
  {
    var next, longer := now[idx := None], order + [idx];
    assert now[idx] == t[idx] && IsWaiting(t, idx);
    forall i: nat | IsWaiting(next, i)
      ensures i != idx && IsWaiting(now, i) && IsWaiting(t, i) && Before(t, idx, i)
    {
      assert now[i] == t[i] && Before(now, idx, i);
    }
    forall k | 0 <= k < |longer|
      ensures IsWaiting(t, longer[k])
    {
      assert k == |order| || longer[k] == order[k];
    }
    assert idx in WaitingSet(now) && idx !in WaitingSet(next);
    assert longer[..|longer| - 1] == order;
  }

  lemma ProgressBegins(t: Table)
    ensures Progress(t, t, []) && LivesOf(t, [], 1) == []
  {
  }

  lemma ProgressEnds(t: Table, now: Table, order: seq<nat>)
    requires Progress(t, now, order) && IsDue(now, None)
    ensures IsBatchOrder(t, order) && |now| == |t|
    ensures forall i: nat :: i < |t| && (t[i].None? || IsWaiting(t, i)) ==> now[i].None?
  {
    forall i: nat | IsWaiting(t, i)
      ensures i in order
    {
      assert !IsWaiting(now, i);
    }
  }

  // ----- job numbers

  /** The number of the k-th submission, counting from 1, in 32 bits. */
  function NumberOf(k: nat): nat {
    k % Words.MODULUS
  }

  /** Later submissions have higher numbers throughout a window exactly when the counter does not wrap inside it. */
  lemma NumbersRiseIff(first: nat, last: nat)
    requires first <= last && last - first < Words.MODULUS
    ensures (forall j, k :: first <= j < k <= last ==> NumberOf(j) < NumberOf(k)) <==> first / Words.MODULUS == last / Words.MODULUS
  {
    if first / Words.MODULUS != last / Words.MODULUS {
      var w := last / Words.MODULUS * Words.MODULUS;
      assert first < w <= last && NumberOf(w) == 0;
      assert !(NumberOf(first) < NumberOf(w));
    }
  }

  /** The queued jobs are numbered in the order of their slots, from the submission `first` on. */
  ghost predicate NumberedFrom(t: Table, first: nat) {
    forall i :: 0 <= i < |t| && t[i].Some? ==> t[i].value.id == NumberOf(first + i)
  }

  /** In this order, jobs of one priority have rising numbers. */
  ghost predicate TiesRise(t: Table, order: seq<nat>)
    requires InOrder(t, order)
  {
    forall k, m :: 0 <= k < m < |order| ==> Rises(t, order[k], order[m])
  }

  predicate Rises(t: Table, i: nat, j: nat)
    requires IsWaiting(t, i) && IsWaiting(t, j)
  {
    t[i].value.priority == t[j].value.priority ==> t[i].value.id < t[j].value.id
  }

  /** Two waiting jobs of one priority with the wrap of the counter between their submissions. */
  predicate WrapsBetween(t: Table, first: nat, i: nat, j: nat) {
    && i < j && IsWaiting(t, i) && IsWaiting(t, j) && t[i].value.priority == t[j].value.priority
    && (first + i) / Words.MODULUS != (first + j) / Words.MODULUS
  }

  lemma NumberFalls(n: nat, m: nat)
    requires n < m < n + Words.MODULUS
    ensures NumberOf(n) < NumberOf(m) <==> n / Words.MODULUS == m / Words.MODULUS
  {
  }

  lemma OrderedAt(t: Table, order: seq<nat>, k: nat, m: nat)
    requires InOrder(t, order) && k < m < |order|
    ensures Before(t, order[k], order[m])
  {
  }

  /** A run takes all ties by rising job number exactly when no two of its waiting jobs are tied across the wrap. */
  lemma TiesRiseIff(t: Table, order: seq<nat>, first: nat)
    requires IsBatchOrder(t, order) && NumberedFrom(t, first) && |t| <= MAX_JOBS
    ensures TiesRise(t, order) <==> !exists i, j :: WrapsBetween(t, first, i, j)
  {
    forall k, m | 0 <= k < m < |order|
      ensures Rises(t, order[k], order[m]) <==> !WrapsBetween(t, first, order[k], order[m])
    {
      var i, j := order[k], order[m];
      assert IsWaiting(t, i) && IsWaiting(t, j) && Before(t, i, j);
      if i < j {
        NumberFalls(first + i, first + j);
      }
    }
    if i, j :| WrapsBetween(t, first, i, j) {
      var k :| 0 <= k < |order| && order[k] == i;
      var m :| 0 <= m < |order| && order[m] == j;
      forall x: nat, y: nat | x < y < |order|
        ensures order[x] != j || order[y] != i
      {
        OrderedAt(t, order, x, y);
      }
      assert !Rises(t, order[k], order[m]);
    }
  }

  /** Jobs 4294967295 and 0, submitted in this order at one priority, run in this order. */
  lemma TieAgainstNumber(a: Job, b: Job)
    requires a.state == Input && b.state == Input && a.priority == b.priority && a.id == 0xFFFF_FFFF && b.id == 0
    ensures var t := [Some(a), Some(b)];
            IsBatchOrder(t, [0, 1]) && NumberedFrom(t, 0xFFFF_FFFF) && !TiesRise(t, [0, 1])
  {
    var t, order: seq<nat> := [Some(a), Some(b)], [0, 1];
    assert IsWaiting(t, 0) && IsWaiting(t, 1);
    assert order[0] == 0 && order[1] == 1;
    assert !Rises(t, order[0], order[1]);
  }

  function FirstFree(pool: seq<AddressSpace>): (k: nat)
    ensures k <= |pool| && (k < |pool| ==> !pool[k].inUse)
    ensures forall j :: 0 <= j < k ==> pool[j].inUse
  {
    if |pool| == 0 || !pool[0].inUse then 0 else 1 + FirstFree(pool[1..])
  }

  class JobEntry {
    const spaces: array<AddressSpace>
    const jobs: array<Option<Job>>
    var nextJobNo: nat

    ghost var submitted: nat
    ghost var queued: nat
    ghost var log: seq<Event>

    ghost predicate SpacesFree()
      reads this, spaces
    {
      spaces.Length == 8 && forall i :: 0 <= i < 8 ==> spaces[i] == AddressSpace(i + 1, false)
    }

    /** Between calls: the queue fills the table from the front, numbered by submission, and no space is in use. */
    ghost predicate Valid()
      reads this, spaces, jobs
    {
      && SpacesFree() && jobs.Length == MAX_JOBS
      && nextJobNo == NumberOf(submitted + 1)
      && queued <= MAX_JOBS && queued <= submitted
      && (forall i :: 0 <= i < MAX_JOBS ==> (jobs[i].Some? <==> i < queued))
      && (forall i :: 0 <= i < queued ==> jobs[i].value.state == Input && jobs[i].value.id == NumberOf(submitted - queued + 1 + i))
    }

    constructor ()
      ensures Valid() && queued == 0 && submitted == 0 && log == [] && fresh(spaces) && fresh(jobs)
    {
      spaces := new AddressSpace[MAX_ASID](i => AddressSpace(i + 1, false));
      jobs := new Option<Job>[MAX_JOBS](i => None);
      nextJobNo, submitted, queued, log := 1, 0, 0, [];
    }

    /**
     Queues a job in the first empty slot. The result 0 stands for a full table, and also for
     the one submission in 2^32 whose number wraps to 0.
     */
    method Submit(name: string, cls: char, priority: nat, steps: nat) returns (r: nat)
      requires Valid()
      modifies this, jobs
      ensures Valid() && log == old(log)
      ensures old(queued) < 16 ==>
                && r == NumberOf(old(submitted) + 1) && submitted == old(submitted) + 1 && queued == old(queued) + 1
                && jobs[..] == old(jobs[..])[old(queued) := Some(Job(r, name, cls, priority, Input, 0, steps))]
      ensures old(queued) == 16 ==> r == 0 && submitted == old(submitted) && queued == old(queued) && jobs[..] == old(jobs[..])
      ensures r == 0 <==> old(queued) == 16 || NumberOf(old(submitted) + 1) == 0
    {
      for i := 0 to jobs.Length
        invariant i <= queued && Valid() && log == old(log) && submitted == old(submitted) && queued == old(queued)
        invariant jobs[..] == old(jobs[..])
      {
        if jobs[i].None? {
          r := nextJobNo;
          nextJobNo := (nextJobNo + 1) % Words.MODULUS;
          jobs[i] := Some(Job(r, name, cls, priority, Input, 0, steps));
          submitted, queued := submitted + 1, queued + 1;
          return;
        }
      }
      return 0;
    }

    /** The first free address space, or 0. */
    method AllocAsid() returns (asid: nat)
      modifies spaces
      ensures var k := FirstFree(old(spaces[..]));
              if k < spaces.Length
              then asid == old(spaces[..])[k].asid && spaces[..] == old(spaces[..])[k := old(spaces[..])[k].(inUse := true)]
              else asid == 0 && spaces[..] == old(spaces[..])
    {
      for i := 0 to spaces.Length
        invariant spaces[..] == old(spaces[..]) && forall j :: 0 <= j < i ==> spaces[j].inUse
      {
        if !spaces[i].inUse {
          spaces[i] := spaces[i].(inUse := true);
          return spaces[i].asid;
        }
      }
      return 0;
    }

    method FreeAsid(asid: nat)
      modifies spaces
      ensures forall i :: 0 <= i < spaces.Length ==>
                spaces[i] == if old(spaces[i]).asid == asid then old(spaces[i]).(inUse := false) else old(spaces[i])
    {
      for i := 0 to spaces.Length
        invariant forall j :: 0 <= j < spaces.Length ==>
                    spaces[j] == if j < i && old(spaces[j]).asid == asid then old(spaces[j]).(inUse := false) else old(spaces[j])
      {
        if spaces[i].asid == asid {
          spaces[i] := spaces[i].(inUse := false);
        }
      }
    }

    /** The waiting slot due before every other waiting slot. */
    method PickNext() returns (best: Option<nat>)
      ensures IsDue(jobs[..], best)
    {
      best := None;
      for i := 0 to jobs.Length
        invariant best.None? ==> forall j: nat :: j < i ==> !IsWaiting(jobs[..], j)
        invariant best.Some? ==> best.value < i && IsWaiting(jobs[..], best.value)
                                 && forall j: nat :: j < i && IsWaiting(jobs[..], j) && j != best.value ==> Before(jobs[..], best.value, j)
      {
        if jobs[i].None? || jobs[i].value.state != Input {
          continue;
        }
        if best.Some? {
          if jobs[i].value.priority > jobs[best.value].value.priority {
            best := Some(i);
          }
        } else {
          best := Some(i);
        }
      }
    }

    /** Runs one waiting job to its end and clears its slot. */
    method Dispatch(idx: nat)
      requires SpacesFree() && IsWaiting(jobs[..], idx)
      modifies this`log, spaces, jobs
      ensures SpacesFree() && jobs[..] == old(jobs[..])[idx := None]
      ensures log == old(log) + LifeOf(old(jobs[idx].value), 1)
    {
      ghost var start, job := jobs[..], jobs[idx].value;
      var asid := AllocAsid();
      assert asid == 1;
      jobs[idx] := Some(jobs[idx].value.(asid := asid));
      jobs[idx] := Some(jobs[idx].value.(state := Active));
      var steps := jobs[idx].value.steps;
      ghost var begun := log + [Activated(jobs[idx].value)];
      log := begun;
      for s := 1 to steps + 1
        invariant log == begun + Steps(s - 1, steps)
        invariant jobs[..] == start[idx := Some(job.(asid := 1, state := Active))]
        invariant forall i :: 0 <= i < MAX_ASID ==> spaces[i] == AddressSpace(i + 1, i == 0)
      {
        log := log + [Stepped(s, steps)];
      }
      jobs[idx] := Some(jobs[idx].value.(state := Output));
      log := log + [OutputReady(jobs[idx].value)];
      jobs[idx] := Some(jobs[idx].value.(state := Purge));
      log := log + [Purged(jobs[idx].value)];
      FreeAsid(asid);
      jobs[idx] := None;
    }

    /**
     Runs until nothing waits: every waiting job lives exactly once, with an address space, in
     the order due; afterwards the table is empty and every space is free.
     */
    method Run() returns (ghost order: seq<nat>)
      requires Valid()
      modifies this`log, this`queued, spaces, jobs
      ensures Valid() && queued == 0
      ensures IsBatchOrder(old(jobs[..]), order) && NumberedFrom(old(jobs[..]), old(submitted) - old(queued) + 1)
      ensures log == old(log) + LivesOf(old(jobs[..]), order, 1)
    {
      hide LivesOf, WaitingSet, IsBatchOrder, Before, AllBefore;
      ghost var t, before := jobs[..], log;
      assert forall i: nat :: i < MAX_JOBS ==> t[i].None? || IsWaiting(t, i);
      order := [];
      ProgressBegins(t);
      var idx := PickNext();
      while idx.Some?
        invariant SpacesFree() && Progress(t, jobs[..], order) && IsDue(jobs[..], idx)
        invariant log == before + LivesOf(t, order, 1)
        decreases WaitingSet(jobs[..])
      {
        ProgressStep(t, jobs[..], order, idx.value, 1);
        Dispatch(idx.value);
        order := order + [idx.value];
        idx := PickNext();
      }
      ProgressEnds(t, jobs[..], order);
      queued := 0;
      assert forall i: nat :: i < MAX_JOBS ==> jobs[..][i].None?;
    }
  }
}
