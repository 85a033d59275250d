/**
 The sector cache in front of the disk driver: a sorted map from sector number to block, filled
 on a read miss, written through, and bounded only on the read path. The driver succeeds, so the
 disk is an array of sectors. A second model takes a write as its two steps.
 */
module BufferCache {
  import opened Wrappers

  const SECTOR := 512
  const MAX_ENTRIES := 256

  type Sector = s: seq<Byte> | |s| == SECTOR witness seq(SECTOR, _ => 0)

  // ----- the cache as a value

  datatype Store = Store(disk: seq<Sector>, cached: map<nat, Sector>, hits: nat, misses: nat)

  datatype Op = Read(lba: nat) | Write(lba: nat, data: Sector)

  /** Every cached block is the block on disk. */
  ghost predicate Coherent(s: Store) {
    forall lba :: lba in s.cached ==> lba < |s.disk| && s.cached[lba] == s.disk[lba]
  }

  predicate IsLeast(k: nat, keys: set<nat>) {
    k in keys && forall j :: j in keys ==> k <= j
  }

  lemma {:induction false} SmallestExists(keys: set<nat>)
    requires keys != {}
    ensures exists k :: IsLeast(k, keys)
  {
    var x :| x in keys;
    var rest := keys - {x};
    if rest == {} {
      assert keys == {x};
      assert IsLeast(x, keys);
    } else {
      SmallestExists(rest);
      var k :| IsLeast(k, rest);
      assert keys == rest + {x};
      assert IsLeast(if x < k then x else k, keys);
    }
  }

  /** The first key of the sorted map. */
  function SmallestKey(m: map<nat, Sector>): (victim: nat)
    requires |m| > 0
    ensures IsLeast(victim, m.Keys)
  {
    assert m.Keys != {};
    SmallestExists(m.Keys);
    var k :| k in m.Keys && IsLeast(k, m.Keys);
    k
  }

  /** Makes room on a miss. */
  function Evicted(m: map<nat, Sector>): (r: map<nat, Sector>)
    ensures |m| < MAX_ENTRIES ==> r == m
    ensures |m| >= MAX_ENTRIES ==> r.Keys <= m.Keys && |r| == |m| - 1
    ensures forall lba :: lba in r ==> lba in m && r[lba] == m[lba]
  {
    if |m| >= MAX_ENTRIES then
      var rest := m - {SmallestKey(m)};
      assert rest.Keys == m.Keys - {SmallestKey(m)};
      rest
    else m
  }

  function Apply(s: Store, op: Op): Store
    requires op.lba < |s.disk|
  {
    match op
    case Read(lba) =>
      if lba in s.cached then s.(hits := s.hits + 1)
      else s.(cached := Evicted(s.cached)[lba := s.disk[lba]], misses := s.misses + 1)
    case Write(lba, data) => s.(disk := s.disk[lba := data], cached := s.cached[lba := data])
  }

  /** What a read hands out. */
  function Served(s: Store, lba: nat): Sector
    requires lba < |s.disk|
  {
    if lba in s.cached then s.cached[lba] else s.disk[lba]
  }

  // ----- runs, against a disk without a cache

  ghost predicate OnDisk(disk: seq<Sector>, ops: seq<Op>) {
    forall k :: 0 <= k < |ops| ==> ops[k].lba < |disk|
  }

  ghost function Run(s: Store, ops: seq<Op>): (r: Store)
    requires OnDisk(s.disk, ops)
    ensures |r.disk| == |s.disk|
  {
    if |ops| == 0 then s
    else
      var before := Run(s, ops[..|ops| - 1]);
      assert ops[|ops| - 1].lba < |s.disk|;
      Apply(before, ops[|ops| - 1])
  }

  ghost function Answers(s: Store, ops: seq<Op>): seq<Sector>
    requires OnDisk(s.disk, ops)
  {
    if |ops| == 0 then []
    else
      var before := ops[..|ops| - 1];
      assert ops[|ops| - 1].lba < |s.disk|;
      Answers(s, before) + if ops[|ops| - 1].Read? then [Served(Run(s, before), ops[|ops| - 1].lba)] else []
  }

  /** The disk alone: the same operations with nothing in front of it. */
  ghost function BareDisk(disk: seq<Sector>, ops: seq<Op>): (r: seq<Sector>)
    requires OnDisk(disk, ops)
    ensures |r| == |disk|
  {
    if |ops| == 0 then disk
    else
      var before := BareDisk(disk, ops[..|ops| - 1]);
      var op := ops[|ops| - 1];
      if op.Write? then before[op.lba := op.data] else before
  }

  ghost function BareAnswers(disk: seq<Sector>, ops: seq<Op>): seq<Sector>
    requires OnDisk(disk, ops)
  {
    if |ops| == 0 then []
    else
      var before := ops[..|ops| - 1];
      var op := ops[|ops| - 1];
      BareAnswers(disk, before) + if op.Read? then [BareDisk(disk, before)[op.lba]] else []
  }

  ghost function ReadsIn(ops: seq<Op>): nat {
    if |ops| == 0 then 0 else ReadsIn(ops[..|ops| - 1]) + if ops[|ops| - 1].Read? then 1 else 0
  }

  lemma ApplyKeepsCoherent(s: Store, op: Op)
    requires op.lba < |s.disk| && Coherent(s)
    ensures Coherent(Apply(s, op)) && Served(s, op.lba) == s.disk[op.lba]
    ensures Apply(s, op).disk == if op.Write? then s.disk[op.lba := op.data] else s.disk
  {
  }

  /** The cache cannot be seen: any run answers, and leaves the disk, as if there were none. */
  lemma {:induction false} Transparent(s: Store, ops: seq<Op>)
    requires OnDisk(s.disk, ops) && Coherent(s)
    ensures Coherent(Run(s, ops)) && Run(s, ops).disk == BareDisk(s.disk, ops)
    ensures Answers(s, ops) == BareAnswers(s.disk, ops)
  {
    if |ops| == 0 {
    } else {
      Transparent(s, ops[..|ops| - 1]);
      ApplyKeepsCoherent(Run(s, ops[..|ops| - 1]), ops[|ops| - 1]);
    }
  }

  lemma {:induction false} EveryReadCounted(s: Store, ops: seq<Op>)
    requires OnDisk(s.disk, ops)
    ensures Run(s, ops).hits + Run(s, ops).misses == s.hits + s.misses + ReadsIn(ops)
  {
    if |ops| == 0 {
    } else {
      EveryReadCounted(s, ops[..|ops| - 1]);
    }
  }

  // ----- how large the cache grows

  /** A write of an uncached sector into a full cache, which nothing is evicted for. */
  predicate Overflows(s: Store, op: Op) {
    op.Write? && op.lba !in s.cached && |s.cached| >= 256
  }

  lemma ReadSize(s: Store, lba: nat)
    requires lba < |s.disk|
    ensures |s.cached| <= |Apply(s, Read(lba)).cached| <= |s.cached| + 1
    ensures |Apply(s, Read(lba)).cached| <= MAX_ENTRIES <==> |s.cached| <= MAX_ENTRIES
  {
    if lba !in s.cached {
      var m := Evicted(s.cached);
      assert m[lba := s.disk[lba]].Keys == m.Keys + {lba};
    }
  }

  lemma WriteSize(s: Store, lba: nat, data: Sector)
    requires lba < |s.disk|
    ensures |Apply(s, Write(lba, data)).cached| == |s.cached| + if lba in s.cached then 0 else 1
  {
    assert s.cached[lba := data].Keys == s.cached.Keys + {lba};
    assert lba in s.cached ==> s.cached.Keys + {lba} == s.cached.Keys;
  }

  lemma StepSize(s: Store, op: Op)
    requires op.lba < |s.disk|
    ensures |s.cached| <= |Apply(s, op).cached| <= |s.cached| + 1
    ensures |Apply(s, op).cached| <= MAX_ENTRIES <==> |s.cached| <= MAX_ENTRIES && !Overflows(s, op)
  {
    hide Apply;
    match op
    case Read(lba) => ReadSize(s, lba);
    case Write(lba, data) => WriteSize(s, lba, data);
  }

  ghost predicate NoneOverflows(s: Store, ops: seq<Op>)
    requires OnDisk(s.disk, ops)
  {
    |ops| == 0 ||
    (var before := ops[..|ops| - 1];
     assert ops[|ops| - 1].lba < |s.disk|;
     NoneOverflows(s, before) && !Overflows(Run(s, before), ops[|ops| - 1]))
  }

  /** The bound of 256 entries holds after a run exactly when no write in it met a full cache without its sector. */
  lemma {:induction false} BoundedIff(s: Store, ops: seq<Op>)
    requires OnDisk(s.disk, ops) && |s.cached| <= 256
    ensures |Run(s, ops).cached| <= 256 <==> NoneOverflows(s, ops)
  {
    if |ops| == 0 {
    } else {
      BoundedIff(s, ops[..|ops| - 1]);
      StepSize(Run(s, ops[..|ops| - 1]), ops[|ops| - 1]);
    }
  }

  lemma {:induction false} ReadsStayBounded(s: Store, ops: seq<Op>)
    requires OnDisk(s.disk, ops) && |s.cached| <= 256 && forall k :: 0 <= k < |ops| ==> ops[k].Read?
    ensures |Run(s, ops).cached| <= 256
  {
    if |ops| == 0 {
    } else {
      ReadsStayBounded(s, ops[..|ops| - 1]);
      StepSize(Run(s, ops[..|ops| - 1]), ops[|ops| - 1]);
    }
  }

  /** Nothing ever shrinks the cache, so what writes add above the bound stays. */
  lemma {:induction false} NeverShrinks(s: Store, ops: seq<Op>)
    requires OnDisk(s.disk, ops)
    ensures |s.cached| <= |Run(s, ops).cached|
  {
    if |ops| == 0 {
    } else {
      NeverShrinks(s, ops[..|ops| - 1]);
      StepSize(Run(s, ops[..|ops| - 1]), ops[|ops| - 1]);
    }
  }

  ghost function SectorsOf(ops: seq<Op>): set<nat> {
    if |ops| == 0 then {} else SectorsOf(ops[..|ops| - 1]) + {ops[|ops| - 1].lba}
  }

  /** Only writes, each to a sector met neither in `keys` nor earlier in the run. */
  ghost predicate WritesNewSectors(keys: set<nat>, ops: seq<Op>) {
    |ops| == 0 ||
    (var before, last := ops[..|ops| - 1], ops[|ops| - 1];
     WritesNewSectors(keys, before) && last.Write? && last.lba !in keys && last.lba !in SectorsOf(before))
  }

  lemma WriteAddsKey(s: Store, op: Op)
    requires op.Write? && op.lba < |s.disk|
    ensures Apply(s, op).cached.Keys == s.cached.Keys + {op.lba}
    ensures op.lba !in s.cached.Keys ==> |Apply(s, op).cached.Keys| == |s.cached.Keys| + 1
  {
  }

  /** However many new sectors are written, each stays: n such writes leave n more entries, past the bound as well. */
  lemma {:induction false} WritesPassTheBound(s: Store, ops: seq<Op>)
    requires OnDisk(s.disk, ops) && WritesNewSectors(s.cached.Keys, ops)
    ensures forall lba :: lba in Run(s, ops).cached.Keys <==> lba in s.cached.Keys || lba in SectorsOf(ops)
    ensures |Run(s, ops).cached.Keys| == |s.cached.Keys| + |ops|
  {
    if |ops| == 0 {
    } else {
      var before, last := ops[..|ops| - 1], ops[|ops| - 1];
      WritesPassTheBound(s, before);
      WriteAddsKey(Run(s, before), last);
    }
  }

  // ----- hits, misses and victims

  /** Reads of sectors neither in `keys` nor touched earlier in the run. */
  ghost function FirstReads(keys: set<nat>, ops: seq<Op>): nat {
    if |ops| == 0 then 0
    else
      var before, last := ops[..|ops| - 1], ops[|ops| - 1];
      FirstReads(keys, before) + if last.Read? && last.lba !in keys && last.lba !in SectorsOf(before) then 1 else 0
  }

  lemma StepWithRoom(s: Store, op: Op, all: set<nat>)
    requires op.lba < |s.disk| && s.cached.Keys <= all && op.lba in all && |all| <= 256
    ensures var t := Apply(s, op);
            && t.cached.Keys == s.cached.Keys + {op.lba}
            && t.misses == s.misses + (if op.Read? && op.lba !in s.cached.Keys then 1 else 0)
            && t.hits == s.hits + (if op.Read? && op.lba in s.cached.Keys then 1 else 0)
  {
    if op.lba !in s.cached.Keys {
      MoreKeys(s.cached.Keys, op.lba, all);
      assert |s.cached| == |s.cached.Keys|;
    }
  }

  lemma MoreKeys(some: set<nat>, k: nat, all: set<nat>)
    requires some <= all && k in all && k !in some
    ensures |some| < |all|
  {
    SubsetSize(some + {k}, all);
  }

  lemma {:induction false} SubsetSize(a: set<nat>, b: set<nat>)
    requires a <= b
    ensures |a| <= |b|
  {
    if a != {} {
      var x :| x in a;
      SubsetSize(a - {x}, b - {x});
    }
  }

  lemma {:induction false} KeysWithin(s: Store, ops: seq<Op>, all: set<nat>)
    requires OnDisk(s.disk, ops) && s.cached.Keys <= all && SectorsOf(ops) <= all && |all| <= 256
    ensures Run(s, ops).cached.Keys == s.cached.Keys + SectorsOf(ops)
  {
    if |ops| == 0 {
    } else {
      hide Apply;
      KeysWithin(s, ops[..|ops| - 1], all);
      StepWithRoom(Run(s, ops[..|ops| - 1]), ops[|ops| - 1], all);
    }
  }

  lemma {:induction false} CountsWithin(s: Store, ops: seq<Op>, all: set<nat>)
    requires OnDisk(s.disk, ops) && s.cached.Keys <= all && SectorsOf(ops) <= all && |all| <= 256
    ensures Run(s, ops).misses == s.misses + FirstReads(s.cached.Keys, ops)
    ensures Run(s, ops).hits + FirstReads(s.cached.Keys, ops) == s.hits + ReadsIn(ops)
  {
    if |ops| == 0 {
    } else {
      hide Apply;
      CountsWithin(s, ops[..|ops| - 1], all);
      KeysWithin(s, ops[..|ops| - 1], all);
      StepWithRoom(Run(s, ops[..|ops| - 1]), ops[|ops| - 1], all);
    }
  }

  /**
   While a run touches at most 256 sectors, counting those cached before, each is missed at most
   once, by a read that is the first to touch it.
   */
  lemma MissesAreFirstReads(s: Store, ops: seq<Op>)
    requires OnDisk(s.disk, ops) && |s.cached.Keys + SectorsOf(ops)| <= 256
    ensures var t := Run(s, ops);
            && t.cached.Keys == s.cached.Keys + SectorsOf(ops)
            && t.misses == s.misses + FirstReads(s.cached.Keys, ops)
            && t.hits + FirstReads(s.cached.Keys, ops) == s.hits + ReadsIn(ops)
  {
    KeysWithin(s, ops, s.cached.Keys + SectorsOf(ops));
    CountsWithin(s, ops, s.cached.Keys + SectorsOf(ops));
  }

  /** A miss in a cache of 256 sectors or more gives up the least of them for the one read. */
  lemma MissEvictsLeast(s: Store, lba: nat, least: nat)
    requires lba < |s.disk| && lba !in s.cached && |s.cached| >= 256
    requires least in s.cached && forall k :: k in s.cached ==> least <= k
    ensures Apply(s, Read(lba)).cached == (map k | k in s.cached && k != least :: s.cached[k])[lba := s.disk[lba]]
  {
    assert SmallestKey(s.cached) == least;
  }

  // ----- writers in two steps

  // A write sends its block to the disk outside the lock and stores it in the cache under the lock,
  // so steps of other writers and readers come in between. A read is one step.

  datatype Pending = Pending(lba: nat, data: Sector)

  datatype System = System(store: Store, pending: map<nat, Pending>)

  datatype Action = Send(writer: nat, lba: nat, data: Sector) | Insert(writer: nat) | Fetch(lba: nat)

  predicate Enabled(y: System, a: Action) {
    match a
    case Send(writer, lba, _) => writer !in y.pending && lba < |y.store.disk|
    case Insert(writer) => writer in y.pending
    case Fetch(lba) => lba < |y.store.disk|
  }

  function Act(y: System, a: Action): System
    requires Enabled(y, a)
  {
    match a
    case Send(writer, lba, data) =>
      System(y.store.(disk := y.store.disk[lba := data]), y.pending[writer := Pending(lba, data)])
    case Insert(writer) =>
      var p := y.pending[writer];
      System(y.store.(cached := y.store.cached[p.lba := p.data]), y.pending - {writer})
    case Fetch(lba) => System(Apply(y.store, Read(lba)), y.pending)
  }

  /** The states of a legal schedule from a disk with a coherent cache and no writer under way. */
  ghost predicate IsSchedule(run: seq<System>, acts: seq<Action>) {
    && |run| == |acts| + 1 && Coherent(run[0].store) && run[0].pending == map[]
    && forall k :: 0 <= k < |acts| ==> Enabled(run[k], acts[k]) && run[k + 1] == Act(run[k], acts[k])
  }

  predicate InFlight(y: System, lba: nat) {
    exists w :: w in y.pending && y.pending[w].lba == lba
  }

  predicate InStep(y: System, lba: nat) {
    lba in y.store.cached ==> lba < |y.store.disk| && y.store.cached[lba] == y.store.disk[lba]
  }

  /** The block sent last to a sector among the first `n` actions. */
  ghost function LastSent(acts: seq<Action>, n: nat, lba: nat): Option<Sector>
    requires n <= |acts|
  {
    if n == 0 then None
    else if acts[n - 1].Send? && acts[n - 1].lba == lba then Some(acts[n - 1].data)
    else LastSent(acts, n - 1, lba)
  }

  /** The block a writer stored last for a sector, unless a read has fetched the sector from disk since. */
  ghost function LastStored(run: seq<System>, acts: seq<Action>, n: nat, lba: nat): Option<Sector>
    requires IsSchedule(run, acts) && n <= |acts|
  {
    if n == 0 then None
    else
      var y, a := run[n - 1], acts[n - 1];
      if a.Insert? && y.pending[a.writer].lba == lba then Some(y.pending[a.writer].data)
      else if a == Fetch(lba) && lba !in y.store.cached then None
      else LastStored(run, acts, n - 1, lba)
  }

  ghost predicate AllOnDisk(y: System) {
    && (forall lba :: lba in y.store.cached ==> lba < |y.store.disk|)
    && forall w :: w in y.pending ==> y.pending[w].lba < |y.store.disk|
  }

  lemma ActKeepsOnDisk(y: System, a: Action)
    requires Enabled(y, a) && AllOnDisk(y)
    ensures AllOnDisk(Act(y, a))
  {
  }

  lemma {:induction false} StaysOnDisk(run: seq<System>, acts: seq<Action>, n: nat)
    requires IsSchedule(run, acts) && n <= |acts|
    ensures AllOnDisk(run[n])
  {
    if n > 0 {
      StaysOnDisk(run, acts, n - 1);
      ActKeepsOnDisk(run[n - 1], acts[n - 1]);
    }
  }

  lemma {:induction false} DiskHoldsLastSent(run: seq<System>, acts: seq<Action>, n: nat, lba: nat)
    requires IsSchedule(run, acts) && n <= |acts| && lba < |run[n].store.disk|
    ensures |run[n].store.disk| == |run[0].store.disk|
    ensures run[n].store.disk[lba] ==
            match LastSent(acts, n, lba) { case Some(data) => data case None => run[0].store.disk[lba] }
  {
    if n > 0 {
      DiskHoldsLastSent(run, acts, n - 1, lba);
    }
  }

  /** What a writer under way has sent was sent; so were all stored blocks. */
  lemma {:induction false} PendingWasSent(run: seq<System>, acts: seq<Action>, n: nat, lba: nat)
    requires IsSchedule(run, acts) && n <= |acts|
    ensures InFlight(run[n], lba) ==> LastSent(acts, n, lba).Some?
    ensures LastStored(run, acts, n, lba).Some? ==> LastSent(acts, n, lba).Some?
  {
    if n > 0 {
      PendingWasSent(run, acts, n - 1, lba);
      var w :| InFlight(run[n], lba) ==> w in run[n].pending && run[n].pending[w].lba == lba;
      assert w in run[n - 1].pending && run[n - 1].pending[w].lba == lba ==> InFlight(run[n - 1], lba);
      if acts[n - 1].Insert? {
        var v := acts[n - 1].writer;
        assert run[n - 1].pending[v].lba == lba ==> InFlight(run[n - 1], lba);
      }
    }
  }

  lemma ActOnSector(y: System, a: Action, lba: nat)
    requires Enabled(y, a)
    ensures a.Fetch? && lba in Act(y, a).store.cached && (lba in y.store.cached || a.lba != lba)
            ==> lba in y.store.cached && Act(y, a).store.cached[lba] == y.store.cached[lba]
    ensures a.Send? && a.lba == lba ==> InFlight(Act(y, a), lba)
    ensures InFlight(y, lba) && !(a.Insert? && y.pending[a.writer].lba == lba) ==> InFlight(Act(y, a), lba)
  {
    if a.Send? {
      assert a.writer in Act(y, a).pending && Act(y, a).pending[a.writer] == Pending(a.lba, a.data);
    }
    if InFlight(y, lba) && !(a.Insert? && y.pending[a.writer].lba == lba) {
      var w :| w in y.pending && y.pending[w].lba == lba;
      assert w in Act(y, a).pending && Act(y, a).pending[w].lba == lba;
    }
  }

  lemma {:induction false} CacheHoldsLastStored(run: seq<System>, acts: seq<Action>, n: nat, lba: nat)
    requires IsSchedule(run, acts) && n <= |acts|
    ensures match LastStored(run, acts, n, lba)
            case Some(data) => lba in run[n].store.cached ==> run[n].store.cached[lba] == data
            case None => InStep(run[n], lba) || InFlight(run[n], lba)
  {
    if n > 0 {
      CacheHoldsLastStored(run, acts, n - 1, lba);
      ActOnSector(run[n - 1], acts[n - 1], lba);
    }
  }

  /**
   Once no writer of a sector is under way, its cached block is the block on disk exactly when the
   sector was fetched since the last store, or the block stored last is the block sent last.
   */
  lemma SettledIff(run: seq<System>, acts: seq<Action>, lba: nat)
    requires IsSchedule(run, acts) && !InFlight(run[|acts|], lba) && lba in run[|acts|].store.cached
    ensures InStep(run[|acts|], lba) <==>
            LastStored(run, acts, |acts|, lba).None? ||
            LastStored(run, acts, |acts|, lba) == LastSent(acts, |acts|, lba)
  {
    StaysOnDisk(run, acts, |acts|);
    DiskHoldsLastSent(run, acts, |acts|, lba);
    PendingWasSent(run, acts, |acts|, lba);
    CacheHoldsLastStored(run, acts, |acts|, lba);
  }

  /** No writer of the sector starts while another one is under way. */
  ghost predicate OneAtATime(run: seq<System>, acts: seq<Action>, lba: nat)
    requires IsSchedule(run, acts)
  {
    forall k :: 0 <= k < |acts| && acts[k].Send? && acts[k].lba == lba ==> !InFlight(run[k], lba)
  }

  /** Writers of a sector that do not overlap leave it in step, whatever goes on with other sectors. */
  lemma {:induction false} OneAtATimeStaysInStep(run: seq<System>, acts: seq<Action>, n: nat, lba: nat)
    requires IsSchedule(run, acts) && n <= |acts| && OneAtATime(run, acts, lba)
    ensures InStep(run[n], lba) || InFlight(run[n], lba)
    ensures forall w :: w in run[n].pending && run[n].pending[w].lba == lba ==>
              lba < |run[n].store.disk| && run[n].pending[w].data == run[n].store.disk[lba]
  {
    if n > 0 {
      OneAtATimeStaysInStep(run, acts, n - 1, lba);
      ActOnSector(run[n - 1], acts[n - 1], lba);
    }
  }

  /** A block that is not in step stays so until its sector is written again or evicted. */
  lemma {:induction false} StaleUntilWritten(run: seq<System>, acts: seq<Action>, m: nat, n: nat, lba: nat)
    requires IsSchedule(run, acts) && m <= n <= |acts| && !InFlight(run[m], lba) && lba < |run[m].store.disk|
    requires forall k :: m <= k <= n ==> lba in run[k].store.cached
    requires forall k :: m <= k < n && acts[k].Send? ==> acts[k].lba != lba
    ensures !InFlight(run[n], lba) && |run[n].store.disk| == |run[m].store.disk|
    ensures run[n].store.cached[lba] == run[m].store.cached[lba]
    ensures run[n].store.disk[lba] == run[m].store.disk[lba]
  {
    if n > m {
      StaleUntilWritten(run, acts, m, n - 1, lba);
      ActOnSector(run[n - 1], acts[n - 1], lba);
      assert acts[n - 1].Send? ==> acts[n - 1].lba != lba;
    }
  }

  /**
   Two writers of one sector, the first overtaken between its two steps: the cache keeps its block,
   the disk the other's.
   */
  lemma OvertakenWriter(s: Store, lba: nat, x: Sector, z: Sector) returns (run: seq<System>, acts: seq<Action>)
    requires Coherent(s) && lba < |s.disk| && x != z
    ensures IsSchedule(run, acts) && run[0] == System(s, map[]) && |acts| == 4
    ensures run[4].pending == map[] && lba in run[4].store.cached && !InStep(run[4], lba)
    ensures |run[4].store.disk| == |s.disk| && Served(run[4].store, lba) == x && run[4].store.disk[lba] == z
  {
    acts := [Send(0, lba, x), Send(1, lba, z), Insert(1), Insert(0)];
    var y0 := System(s, map[]);
    var y1 := Act(y0, acts[0]);
    var y2 := Act(y1, acts[1]);
    var y3 := Act(y2, acts[2]);
    run := [y0, y1, y2, y3, Act(y3, acts[3])];
  }

  /** With nothing in between, the two steps are the write above. */
  lemma SendThenInsert(y: System, writer: nat, lba: nat, data: Sector)
    requires writer !in y.pending && lba < |y.store.disk|
    ensures Act(Act(y, Send(writer, lba, data)), Insert(writer)) == System(Apply(y.store, Write(lba, data)), y.pending)
  {
  }

  // ----- the cache itself

  class Disk {
    var sectors: seq<Sector>

    constructor (image: seq<Sector>)
      ensures sectors == image
    {
      sectors := image;
    }
  }

  class Cache {
    const disk: Disk
    var blocks: map<nat, Sector>
    var hits: nat
    var misses: nat

    ghost function State(): Store
      reads this, disk
    {
      Store(disk.sectors, blocks, hits, misses)
    }

    constructor (disk: Disk)
      ensures this.disk == disk && Coherent(State()) && State() == Store(disk.sectors, map[], 0, 0)
    {
      this.disk := disk;
      blocks, hits, misses := map[], 0, 0;
    }

    method ReadSector(lba: nat) returns (block: Sector)
      requires lba < |disk.sectors| && Coherent(State())
      modifies this
      ensures State() == Apply(old(State()), Read(lba)) && Coherent(State())
      ensures block == disk.sectors[lba] && |block| == 512
    {
      ApplyKeepsCoherent(State(), Read(lba));
      if lba in blocks {
        hits := hits + 1;
        return blocks[lba];
      }
      misses := misses + 1;
      block := disk.sectors[lba];
      if |blocks| >= MAX_ENTRIES {
        var victim := SmallestKey(blocks);
        blocks := blocks - {victim};
      }
      blocks := blocks[lba := block];
    }

    method WriteSector(lba: nat, data: Sector)
      requires lba < |disk.sectors| && Coherent(State())
      modifies this`blocks, disk
      ensures State() == Apply(old(State()), Write(lba, data)) && Coherent(State())
    {
      ApplyKeepsCoherent(State(), Write(lba, data));
      disk.sectors := disk.sectors[lba := data];
      blocks := blocks[lba := data];
    }

    /**
     The boot check: the second read of sector 2 is a hit with the same bytes. It asks for a miss
     as well, so it passes exactly when sector 2 was not cached before.
     */
    method Selftest() returns (ok: bool)
      requires 2 < |disk.sectors| && Coherent(State())
      modifies this
      ensures Coherent(State()) && ok == (2 !in old(blocks))
      ensures hits + misses == old(hits + misses) + 2 && 2 in blocks
    {
      var h0, m0 := hits, misses;
      var a := ReadSector(2);
      var b := ReadSector(2);
      ok := a == b && hits > h0 && misses > m0;
    }
  }
}
