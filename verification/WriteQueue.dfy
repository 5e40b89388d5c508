/**
 The writer queue (db/db_impl.cc:1185-1306): concurrent calls of Write, one step of a thread at a time.  Each method of
 WriteQueue is one stretch of code between the points where the mutex is released, run by one thread.
 */
module WriteQueues {
  import opened Keys
  import opened WriteBatches

  type WriterId = nat

  /** A call of Write: its batch (none asks for a memtable switch) and its sync option. */
  datatype Job = Job(batch: Option<seq<BatchOp>>, sync: bool)

  /** What each call asks for. */
  type Jobs = WriterId -> Job

  /** Where a thread is in Write: about to test its wait condition, in Wait, past the test as the leader, or back. */
  datatype Stage = Checking | Sleeping | Leading | Returned

  /** Writers served together; `written` when they got as far as the log, under `first` and the following numbers. */
  datatype Group =
    Group(members: seq<WriterId>, written: bool, first: nat, ops: seq<BatchOp>, appended: bool, syncFailed: bool,
          ok: bool)

  /** What the leader is doing while it may have released the mutex. */
  datatype Phase = Idle | MakingRoom | Logging(group: Group) | Inserting(group: Group, inserted: nat)

  /** How appending a record to the log and syncing it went. */
  datatype LogOutcome = LogWritten | AppendFailed(reached: bool) | SyncFailed

  ghost predicate NoDuplicates(ws: seq<WriterId>) {
    forall i, j :: 0 <= i < j < |ws| ==> ws[i] != ws[j]
  }

  function Flatten(gs: seq<Group>): seq<WriterId> {
    if gs == [] then [] else Flatten(gs[..|gs| - 1]) + gs[|gs| - 1].members
  }

  function BatchOf(j: Job): seq<BatchOp> {
    if j.batch.Some? then j.batch.value else []
  }

  /** The operations of some writers' batches, in queue order. */
  function OpsOf(jobs: Jobs, ws: seq<WriterId>): seq<BatchOp> {
    if ws == [] then [] else OpsOf(jobs, ws[..|ws| - 1]) + BatchOf(jobs(ws[|ws| - 1]))
  }

  /** How many sequence numbers some groups took. */
  function Total(gs: seq<Group>): nat {
    if gs == [] then 0 else Total(gs[..|gs| - 1]) + |gs[|gs| - 1].ops|
  }

  /** The records some groups left in the log. */
  function LogOf(gs: seq<Group>): seq<Logged> {
    if gs == [] then [] else LogOf(gs[..|gs| - 1]) + Record(gs[|gs| - 1])
  }

  function Record(g: Group): seq<Logged> {
    if g.appended then [Logged(g.first, g.ops)] else []
  }

  /** The operations some groups put in the memtable: those of the groups that succeeded. */
  function MemOf(gs: seq<Group>): seq<Stamped> {
    if gs == [] then []
    else
      MemOf(gs[..|gs| - 1]) + (if gs[|gs| - 1].ok then Stamp(gs[|gs| - 1].ops, gs[|gs| - 1].first) else [])
  }

  // ---------- what a group may be ----------

  function ByteSize(ops: seq<BatchOp>): nat {
    HEADER_SIZE + |EncodeOps(ops)|
  }

  /** The size a group may grow to, given that of its first batch. */
  function MaxSize(first: nat): nat {
    if first <= 0x2_0000 then first + 0x2_0000 else 0x10_0000
  }

  function TotalSize(jobs: Jobs, ws: seq<WriterId>): nat {
    if ws == [] then 0
    else TotalSize(jobs, ws[..|ws| - 1]) + SizeOf(jobs(ws[|ws| - 1]))
  }

  function SizeOf(j: Job): nat {
    if j.batch.Some? then ByteSize(j.batch.value) else 0
  }

  /** The writer at `n` may join those before it: no sync write behind an unsynced leader, no overfull group. */
  predicate MayJoin(jobs: Jobs, ws: seq<WriterId>, n: nat)
    requires 0 < n < |ws|
  {
    && (jobs(ws[n]).sync ==> jobs(ws[0]).sync)
    && (jobs(ws[n]).batch.Some? ==> TotalSize(jobs, ws[..n + 1]) <= MaxSize(SizeOf(jobs(ws[0]))))
  }

  /** A group is the longest prefix of the queue in which every writer may join. */
  ghost predicate LongestGroup(jobs: Jobs, ws: seq<WriterId>, n: nat) {
    && 0 < n <= |ws|
    && (forall i :: 0 < i < n ==> MayJoin(jobs, ws, i))
    && (n < |ws| ==> !MayJoin(jobs, ws, n))
  }

  /** A group wrote the batches of its members or nothing; its success means it was logged, and synced if asked for. */
  ghost predicate GroupHonest(g: Group, jobs: Jobs) {
    && g.members != []
    && g.ops == (if g.written then OpsOf(jobs, g.members) else [])
    && (g.appended || g.syncFailed ==> g.written) && (g.written && g.ok ==> g.appended) && (g.syncFailed ==> !g.ok)
    && (g.written ==> jobs(g.members[0]).batch.Some?)
    && (g.written ==> forall w :: w in g.members && jobs(w).sync ==> jobs(g.members[0]).sync)
    && (!g.written ==> |g.members| == 1 && (g.ok ==> jobs(g.members[0]).batch.None?))
  }

  // ---------- the invariant, part by part ----------

  /** Every writer that ever came is in exactly one finished group or still in the queue, in order of arrival. */
  ghost predicate Accounted(arrived: seq<WriterId>, groups: seq<Group>, writers: seq<WriterId>) {
    NoDuplicates(arrived) && arrived == Flatten(groups) + writers
  }

  /** Only the front of the queue leads; it never sleeps, and neither does a writer that has been served. */
  ghost predicate Awake(stage: map<WriterId, Stage>, arrived: seq<WriterId>, groups: seq<Group>,
                        writers: seq<WriterId>, idle: bool)
  {
    && (forall w :: w in stage <==> w in arrived)
    && (forall i :: 0 < i < |writers| ==> writers[i] in stage && stage[writers[i]] in {Checking, Sleeping})
    && (writers != [] ==> writers[0] in stage && stage[writers[0]] == if idle then Checking else Leading)
    && (forall w :: w in Flatten(groups) ==> w in stage && stage[w] in {Checking, Returned})
  }

  /** Served writers have their group's status. */
  ghost predicate Served(status: map<WriterId, bool>, groups: seq<Group>) {
    && (forall w :: w in status <==> w in Flatten(groups))
    && forall i, w :: 0 <= i < |groups| && w in groups[i].members ==> w in status && status[w] == groups[i].ok
  }

  /** Groups are numbered consecutively and honest; after a failed sync nothing succeeds any more. */
  ghost predicate History(groups: seq<Group>, base: nat, lastSequence: nat, jobs: Jobs) {
    && lastSequence == base + Total(groups)
    && (forall i :: 0 <= i < |groups| && groups[i].written ==> groups[i].first == base + 1 + Total(groups[..i]))
    && (forall i :: 0 <= i < |groups| ==> GroupHonest(groups[i], jobs))
    && (forall i, j :: 0 <= i < j < |groups| && groups[i].syncFailed ==> !groups[j].ok && !groups[j].written)
  }

  ghost predicate SyncBroken(groups: seq<Group>) {
    exists i :: 0 <= i < |groups| && groups[i].syncFailed
  }

  /** The group being logged or inserted is at the front of the queue and has the next sequence numbers. */
  ghost predicate InProgress(g: Group, writers: seq<WriterId>, lastSequence: nat, jobs: Jobs) {
    g.members <= writers && GroupHonest(g, jobs) && g.written && g.first == lastSequence + 1
  }

  ghost predicate PhaseOk(phase: Phase, writers: seq<WriterId>, lastSequence: nat, jobs: Jobs, groups: seq<Group>,
                          bgError: bool) {
    match phase
    case Idle => bgError <==> SyncBroken(groups)
    case MakingRoom => writers != [] && (bgError <==> SyncBroken(groups))
    case Logging(g) =>
      InProgress(g, writers, lastSequence, jobs) && !bgError && !SyncBroken(groups) && !g.ok && !g.appended
        && !g.syncFailed
    case Inserting(g, n) =>
      && InProgress(g, writers, lastSequence, jobs) && !bgError && !SyncBroken(groups)
      && n <= if g.ok then |g.ops| else 0
  }

  /** What the current group has put in the log and in the memtable. */
  function PendingLog(phase: Phase): seq<Logged> {
    if phase.Inserting? then Record(phase.group) else []
  }

  function PendingMem(phase: Phase): seq<Stamped> {
    if phase.Inserting? && phase.inserted <= |phase.group.ops|
    then Stamp(phase.group.ops[..phase.inserted], phase.group.first) else []
  }

  lemma FlattenSnoc(gs: seq<Group>, g: Group)
    ensures Flatten(gs + [g]) == Flatten(gs) + g.members
    ensures Total(gs + [g]) == Total(gs) + |g.ops|
    ensures LogOf(gs + [g]) == LogOf(gs) + Record(g)
    ensures MemOf(gs + [g]) == MemOf(gs) + (if g.ok then Stamp(g.ops, g.first) else [])
  {
    assert (gs + [g])[..|gs|] == gs;
  }

  // ---------- the queue ----------

  class WriteQueue {
    const jobs: Jobs
    /** The last sequence number before the run. */
    const base: nat
    var writers: seq<WriterId>
    var stage: map<WriterId, Stage>
    /** Statuses set by a leader for the writers it served, its own included. */
    var status: map<WriterId, bool>
    var phase: Phase
    var lastSequence: nat
    var log: seq<Logged>
    var mem: seq<Stamped>
    /** A sync has failed: the database takes no more writes. */
    var bgError: bool
    /** All writers in the order they took their place in the queue, and the groups served so far. */
    ghost var arrived: seq<WriterId>
    ghost var groups: seq<Group>

    ghost predicate Valid()
      reads this
    {
      && Accounted(arrived, groups, writers)
      && Awake(stage, arrived, groups, writers, phase.Idle?)
      && Served(status, groups)
      && History(groups, base, lastSequence, jobs)
      && PhaseOk(phase, writers, lastSequence, jobs, groups, bgError)
      && log == LogOf(groups) + PendingLog(phase)
      && mem == MemOf(groups) + PendingMem(phase)
    }

    constructor (jobs: Jobs, base: nat)
      ensures Valid() && this.jobs == jobs && this.base == base
      ensures writers == arrived == [] && groups == [] && log == [] && mem == []
    {
      this.jobs, this.base := jobs, base;
      writers, stage, status, phase := [], map[], map[], Idle;
      lastSequence, log, mem, bgError := base, [], [], false;
      arrived, groups := [], [];
      new;
      hide GroupHonest, OpsOf, Stamp, InProgress;
    }

    /** Take a place in the queue. */
    method Arrive(w: WriterId)
      requires Valid() && w !in stage
      modifies this`writers, this`stage, this`arrived
      ensures Valid() && writers == old(writers) + [w] && arrived == old(arrived) + [w]
      ensures stage == old(stage)[w := Checking]
    {
      hide History, Served, Flatten, Total, LogOf, MemOf, Awake, Accounted, PhaseOk;
      ArriveSurvives(stage, arrived, groups, writers, w, phase, lastSequence, jobs, bgError);
      writers := writers + [w];
      stage := stage[w := Checking];
      arrived := arrived + [w];
    }

    /** Test the wait condition: return if served, lead if at the front, else sleep. */
    method Check(w: WriterId)
      requires Valid() && w in stage && stage[w] == Checking
      modifies this`stage, this`phase
      ensures Valid()
      ensures w in status || writers != []
      ensures stage == old(stage)[w := if w in status then Returned else if writers[0] == w then Leading else Sleeping]
    {
      hide History, GroupHonest, Total, LogOf, MemOf, Flatten, Served, Accounted, SyncBroken;
      QueueOrServed(arrived, groups, writers, stage, status, w, phase.Idle?);
      if w in status {
        stage := stage[w := Returned];
      } else if writers[0] == w {
        stage, phase := stage[w := Leading], MakingRoom;
      } else {
        stage := stage[w := Sleeping];
      }
    }

    /** A condition variable may wake a thread without a signal. */
    method WakeSpuriously(w: WriterId)
      requires Valid() && w in stage && stage[w] == Sleeping
      modifies this`stage
      ensures Valid() && stage == old(stage)[w := Checking]
    {
      hide History, GroupHonest, Total, LogOf, MemOf, Flatten, Served, PhaseOk;
      stage := stage[w := Checking];
    }

    /** BuildBatchGroup: the writers the leader serves, and the operations of their batches. */
    method BuildBatchGroup() returns (n: nat, ops: seq<BatchOp>)
      requires writers != [] && jobs(writers[0]).batch.Some?
      ensures LongestGroup(jobs, writers, n) && ops == OpsOf(jobs, writers[..n])
    {
      hide OpsOf, TotalSize, ByteSize;
      var first := jobs(writers[0]);
      ops := first.batch.value;
      var size := SizeOf(first);
      var maxSize := 0x10_0000;
      if size <= 0x2_0000 {
        maxSize := size + 0x2_0000;
      }
      n := 1;
      FirstOfGroup(jobs, writers);
      while n < |writers|
        invariant 0 < n <= |writers| && ops == OpsOf(jobs, writers[..n]) && size == TotalSize(jobs, writers[..n])
        invariant maxSize == MaxSize(SizeOf(first))
        invariant forall i :: 0 < i < n ==> MayJoin(jobs, writers, i)
      {
        var job := jobs(writers[n]);
        NextOfGroup(jobs, writers, n);
        if job.sync && !first.sync {
          break;
        }
        if job.batch.Some? {
          size := size + SizeOf(job);
          if size > maxSize {
            break;
          }
          ops := ops + job.batch.value;
        }
        n := n + 1;
      }
    }

    /** The leader is back from MakeRoomForWrite: serve itself alone, or gather a group and go to the log. */
    method MakeRoom(room: bool)
      requires Valid() && phase.MakingRoom?
      modifies this`writers, this`stage, this`status, this`phase, this`groups, this`lastSequence, this`bgError
      ensures Valid()
      ensures old(room && !bgError && writers != [] && jobs(writers[0]).batch.Some?) ==>
        && phase.Logging? && LongestGroup(jobs, writers, |phase.group.members|)
        && writers == old(writers) && groups == old(groups) && lastSequence == old(lastSequence)
      ensures !old(room && !bgError && writers != [] && jobs(writers[0]).batch.Some?) ==>
        old(writers) != []
        && groups == old(groups) + [Group([old(writers)[0]], false, 0, [], false, false, old(room && !bgError))]
    {
      hide Accounted, Awake, Served, History, MemOf, LogOf, Flatten, OpsOf, Total;
      var w := writers[0];
      var ok := room && !bgError;
      if ok && jobs(w).batch.Some? {
        var n, ops := BuildBatchGroup();
        phase := Logging(Group(writers[..n], true, lastSequence + 1, ops, false, false, false));
        LongestGroupIsHonest(jobs, writers, n, phase.group);
      } else {
        Complete(Group([w], false, 0, [], false, false, ok));
      }
    }

    /** The mutex is released: append the group's record to the log and sync it if the leader asks for that. */
    method AppendToLog(outcome: LogOutcome)
      requires Valid() && phase.Logging? && writers != [] && (outcome.SyncFailed? ==> jobs(writers[0]).sync)
      modifies this`log, this`phase
      ensures Valid() && phase.Inserting? && phase.inserted == 0
      ensures phase.group == match outcome
                             case LogWritten => old(phase).group.(appended := true, ok := true)
                             case AppendFailed(reached) => old(phase).group.(appended := reached)
                             case SyncFailed => old(phase).group.(appended := true, syncFailed := true)
    {
      hide Accounted, Awake, Served, History, MemOf, LogOf, Flatten, OpsOf, Total, SyncBroken;
      var g := phase.group;
      match outcome {
        case LogWritten => g := g.(appended := true, ok := true);
        case AppendFailed(reached) => g := g.(appended := reached);
        case SyncFailed => g := g.(appended := true, syncFailed := true);
      }
      log := log + Record(g);
      phase := Inserting(g, 0);
    }

    /** Still without the mutex: put one more operation of the group in the memtable. */
    method InsertNext()
      requires Valid() && phase.Inserting? && phase.group.ok && phase.inserted < |phase.group.ops|
      modifies this`mem, this`phase
      ensures Valid() && phase == old(phase).(inserted := old(phase).inserted + 1)
      ensures mem == old(mem) + [Stamped(phase.group.ops[old(phase).inserted], lastSequence + 1 + old(phase).inserted)]
    {
      hide Accounted, Awake, Served, History, MemOf, LogOf, Flatten, OpsOf, Total, SyncBroken, GroupHonest, Stamp;
      var g, n := phase.group, phase.inserted;
      StampSnoc(MemOf(groups), g.ops, n, g.first);
      mem := mem + [Stamped(g.ops[n], g.first + n)];
      phase := Inserting(g, n + 1);
    }

    /** The mutex is back: make the group's operations visible and let its writers go. */
    method Publish()
      requires Valid() && phase.Inserting? && phase.inserted == if phase.group.ok then |phase.group.ops| else 0
      modifies this`writers, this`stage, this`status, this`phase, this`groups, this`lastSequence, this`bgError
      ensures Valid() && phase.Idle?
      ensures lastSequence == old(lastSequence) + |old(phase).group.ops| && groups == old(groups) + [old(phase).group]
    {
      hide Accounted, Awake, Served, History, MemOf, LogOf, Flatten, OpsOf, Total, GroupHonest, SyncBroken;
      var g := phase.group;
      WholeGroup(g);
      Complete(g);
    }

    /** The end of Write for a leader: sequence numbers, background error, queue. */
    method Complete(g: Group)
      requires Valid() && !phase.Idle? && GroupHonest(g, jobs) && g.members != [] && g.members <= writers
      requires g.written ==> g.first == lastSequence + 1
      requires (bgError <==> SyncBroken(groups)) && (bgError ==> !g.ok && !g.written)
      requires log == LogOf(groups) + Record(g)
      requires mem == MemOf(groups) + if g.ok then Stamp(g.ops, g.first) else []
      modifies this`writers, this`stage, this`status, this`phase, this`groups, this`lastSequence, this`bgError
      ensures Valid() && phase.Idle?
      ensures lastSequence == old(lastSequence) + |g.ops| && groups == old(groups) + [g]
    {
      hide Accounted, Awake, Served, History, MemOf, LogOf, Flatten, OpsOf, Total, GroupHonest, SyncBroken, PhaseOk;
      ghost var stage0, status0, writers0, groups0 := stage, status, writers, groups;
      QueueIsNew(arrived, groups, writers);
      FlattenSnoc(groups, g);
      FinishHistory(groups, base, lastSequence, jobs, g);
      if g.syncFailed {
        bgError := true;
      }
      lastSequence := lastSequence + |g.ops|;
      Finish(g);
      FinishAccounted(arrived, groups0, writers0, g);
      FinishServed(status0, status, groups0, g);
      assert StagesMoved(stage0, stage, g.members, writers);
      FinishAwake(stage0, stage, arrived, groups0, writers0, g);
      IdleOk(writers, lastSequence, jobs, groups, bgError);
    }

    /** Pop the group off the queue, set its writers' statuses and wake them, then wake the new front. */
    method Finish(g: Group)
      requires g.members != [] && g.members <= writers
      requires forall i, j :: 0 <= i < j < |writers| ==> writers[i] != writers[j]
      modifies this`writers, this`stage, this`status, this`phase, this`groups
      ensures phase.Idle? && groups == old(groups) + [g] && writers == old(writers)[|g.members|..]
      ensures forall w :: w in status <==> w in old(status) || w in g.members
      ensures forall w :: w in status ==> status[w] == if w in g.members then g.ok else old(status)[w]
      ensures forall w :: w in stage <==> w in old(stage) || w in g.members || (writers != [] && w == writers[0])
      ensures forall w :: w in stage ==>
        stage[w] == if w == g.members[0] then Returned
                    else if w in g.members || (writers != [] && w == writers[0]) then Checking else old(stage)[w]
    {
      PopGroup(g.members, g.ok);
      if writers != [] {
        stage := stage[writers[0] := Checking];
      }
      groups := groups + [g];
      phase := Idle;
    }

    /** The pop loop: up to and including the last writer of the group. */
    method PopGroup(members: seq<WriterId>, ok: bool)
      requires members != [] && members <= writers
      requires forall i, j :: 0 <= i < j < |writers| ==> writers[i] != writers[j]
      modifies this`writers, this`stage, this`status
      ensures writers == old(writers)[|members|..] && (writers != [] ==> writers[0] !in members)
      ensures forall w :: w in status <==> w in old(status) || w in members
      ensures forall w :: w in status ==> status[w] == if w in members then ok else old(status)[w]
      ensures forall w :: w in stage <==> w in old(stage) || w in members
      ensures forall w :: w in stage ==>
        stage[w] == if w == members[0] then Returned else if w in members then Checking else old(stage)[w]
    {
      ghost var queue := writers;
      var leader := writers[0];
      var last := members[|members| - 1];
      LastOfGroup(queue, members);
      var n: nat := 0;
      var more := true;
      ghost var popped: set<WriterId> := {};
      while more
        invariant 0 <= n <= |members| && writers == queue[n..] && (more <==> n < |members|)
        invariant (forall j :: 0 <= j < n ==> members[j] in popped) && forall w :: w in popped ==> w in members
        invariant Marked(status, old(status), popped, ok)
        invariant Advanced(stage, old(stage), popped, leader)
        decreases |members| - n
      {
        hide Marked, Advanced;
        var ready := writers[0];
        assert ready == members[n];
        writers := writers[1..];
        MarkOne(status, old(status), popped, ok, ready);
        AdvanceOne(stage, old(stage), popped, leader, ready);
        status := status[ready := ok];
        stage := stage[ready := if ready == leader then Returned else Checking];
        popped := popped + {ready};
        n := n + 1;
        more := ready != last;
      }
      assert forall w :: w in popped <==> w in members;
    }
  }

  /** These writers have this status, the others what they had. */
  ghost predicate Marked(now: map<WriterId, bool>, was: map<WriterId, bool>, popped: set<WriterId>, ok: bool) {
    && (forall w :: w in now <==> w in was || w in popped)
    && (forall w :: w in now ==> now[w] == if w in popped then ok else was[w])
  }

  lemma MarkOne(now: map<WriterId, bool>, was: map<WriterId, bool>, popped: set<WriterId>, ok: bool, w: WriterId)
    requires Marked(now, was, popped, ok)
    ensures Marked(now[w := ok], was, popped + {w}, ok)
  {
  }

  /** These writers are done waiting: the leader returns, the others have their status to look at. */
  ghost predicate Advanced(now: map<WriterId, Stage>, was: map<WriterId, Stage>, popped: set<WriterId>,
                           leader: WriterId) {
    && (forall w :: w in now <==> w in was || w in popped)
    && (forall w :: w in now ==> now[w] == if w in popped then (if w == leader then Returned else Checking) else was[w])
  }

  lemma AdvanceOne(now: map<WriterId, Stage>, was: map<WriterId, Stage>, popped: set<WriterId>, leader: WriterId,
                   w: WriterId)
    requires Advanced(now, was, popped, leader)
    ensures Advanced(now[w := if w == leader then Returned else Checking], was, popped + {w}, leader)
  {
  }

  lemma LastOfGroup(queue: seq<WriterId>, members: seq<WriterId>)
    requires members != [] && members <= queue
    requires forall i, j :: 0 <= i < j < |queue| ==> queue[i] != queue[j]
    ensures forall j :: 0 <= j < |members| ==>
              members[j] == queue[j]
              && (members[j] == members[|members| - 1] <==> j == |members| - 1)
    ensures |members| < |queue| ==> queue[|members|] !in members
  {
  }

  lemma LongestGroupIsHonest(jobs: Jobs, ws: seq<WriterId>, n: nat, g: Group)
    requires ws != [] && jobs(ws[0]).batch.Some? && LongestGroup(jobs, ws, n)
    requires g.members == ws[..n] && g.written && g.ops == OpsOf(jobs, ws[..n]) && !g.ok && !g.syncFailed && !g.appended
    ensures GroupHonest(g, jobs)
  {
    hide OpsOf, TotalSize;
    forall w | w in g.members && jobs(w).sync
      ensures jobs(ws[0]).sync
    {
      var i :| 0 <= i < n && ws[i] == w;
      assert i > 0 ==> MayJoin(jobs, ws, i);
    }
  }

  lemma WholeGroup(g: Group)
    ensures g.ops[..|g.ops|] == g.ops && Stamp(g.ops[..0], g.first) == []
    ensures forall jobs :: GroupHonest(g, jobs) ==> g.members != []
  {
  }

  lemma IdleOk(writers: seq<WriterId>, lastSequence: nat, jobs: Jobs, groups: seq<Group>, bgError: bool)
    requires bgError <==> SyncBroken(groups)
    ensures PhaseOk(Idle, writers, lastSequence, jobs, groups, bgError)
  {
  }

  /** Nobody in the queue has been served, and nobody is in it twice. */
  lemma QueueIsNew(arrived: seq<WriterId>, groups: seq<Group>, writers: seq<WriterId>)
    requires Accounted(arrived, groups, writers)
    ensures forall i, j :: 0 <= i < j < |writers| ==> writers[i] != writers[j]
    ensures forall w :: w in writers ==> w !in Flatten(groups)
  {
    hide Flatten;
    var served := Flatten(groups);
    assert forall i :: 0 <= i < |writers| ==> arrived[|served| + i] == writers[i];
    forall i, j | 0 <= i < |writers| && 0 <= j < |served|
      ensures served[j] != writers[i]
    {
      assert arrived[j] == served[j];
    }
  }

  lemma FinishHistory(groups: seq<Group>, base: nat, lastSequence: nat, jobs: Jobs, g: Group)
    requires History(groups, base, lastSequence, jobs) && GroupHonest(g, jobs)
    requires (g.written ==> g.first == lastSequence + 1) && (SyncBroken(groups) ==> !g.ok && !g.written)
    ensures History(groups + [g], base, lastSequence + |g.ops|, jobs)
    ensures SyncBroken(groups + [g]) <==> SyncBroken(groups) || g.syncFailed
  {
    hide GroupHonest;
    FlattenSnoc(groups, g);
    var all := groups + [g];
    forall i | 0 <= i < |all|
      ensures i < |groups| ==> all[..i] == groups[..i] && all[i] == groups[i]
      ensures i == |groups| ==> all[..i] == groups && all[i] == g
    {
    }
    if SyncBroken(groups) {
      var i :| 0 <= i < |groups| && groups[i].syncFailed;
      assert all[i].syncFailed;
    }
    assert all[|groups|] == g;
  }

  lemma FinishAccounted(arrived: seq<WriterId>, groups: seq<Group>, writers: seq<WriterId>, g: Group)
    requires Accounted(arrived, groups, writers) && g.members <= writers
    ensures Accounted(arrived, groups + [g], writers[|g.members|..])
  {
    hide Flatten;
    FlattenSnoc(groups, g);
    assert writers == g.members + writers[|g.members|..];
  }

  lemma FinishServed(status: map<WriterId, bool>, status': map<WriterId, bool>, groups: seq<Group>, g: Group)
    requires Served(status, groups) && forall w :: w in g.members ==> w !in Flatten(groups)
    requires forall w :: w in status' <==> w in status || w in g.members
    requires forall w :: w in status' ==> status'[w] == if w in g.members then g.ok else status[w]
    ensures Served(status', groups + [g])
  {
    hide Flatten;
    FlattenSnoc(groups, g);
    forall i, w | 0 <= i < |groups + [g]| && w in (groups + [g])[i].members
      ensures w in status' && status'[w] == (groups + [g])[i].ok
    {
      if i < |groups| { assert w in status; }
    }
  }

  /** What Finish does to the stages of threads. */
  ghost predicate StagesMoved(stage: map<WriterId, Stage>, stage': map<WriterId, Stage>, members: seq<WriterId>,
                              rest: seq<WriterId>)
    requires members != []
  {
    && (forall w :: w in stage' <==> w in stage || w in members || (rest != [] && w == rest[0]))
    && forall w :: w in stage' ==>
         stage'[w] == if w == members[0] then Returned
                      else if w in members || (rest != [] && w == rest[0]) then Checking else stage[w]
  }

  lemma FinishAwake(stage: map<WriterId, Stage>, stage': map<WriterId, Stage>, arrived: seq<WriterId>,
                    groups: seq<Group>,
                    writers: seq<WriterId>, g: Group)
    requires Accounted(arrived, groups, writers) && Awake(stage, arrived, groups, writers, false)
             && g.members <= writers
    requires g.members != [] && StagesMoved(stage, stage', g.members, writers[|g.members|..])
    ensures Awake(stage', arrived, groups + [g], writers[|g.members|..], true)
  {
    hide Flatten, Accounted, NoDuplicates, StagesMoved, Awake, LogOf, MemOf, Total, Record, Stamp;
    FlattenSnoc(groups, g);
    QueueIsNew(arrived, groups, writers);
    var rest := writers[|g.members|..];
    assert writers == g.members + rest;
    AwakeQueue(stage, stage', arrived, groups, g.members, rest);
    AwakeServed(stage, stage', arrived, groups, g.members, rest);
    AwakeParts(stage', arrived, groups + [g], rest);
  }

  lemma AwakeParts(stage: map<WriterId, Stage>, arrived: seq<WriterId>, groups: seq<Group>, writers: seq<WriterId>)
    requires forall w :: w in stage <==> w in arrived
    requires forall i :: 0 <= i < |writers| ==> writers[i] in stage && stage[writers[i]] in {Checking, Sleeping}
    requires writers != [] ==> writers[0] in stage && stage[writers[0]] == Checking
    requires forall w :: w in Flatten(groups) ==> w in stage && stage[w] in {Checking, Returned}
    ensures Awake(stage, arrived, groups, writers, true)
  {
  }

  lemma AwakeQueue(stage: map<WriterId, Stage>, stage': map<WriterId, Stage>, arrived: seq<WriterId>,
                   groups: seq<Group>,
                   members: seq<WriterId>, rest: seq<WriterId>)
    requires members != [] && Awake(stage, arrived, groups, members + rest, false)
             && StagesMoved(stage, stage', members, rest)
    requires forall i, j :: 0 <= i < j < |members + rest| ==> (members + rest)[i] != (members + rest)[j]
    ensures forall w :: w in stage' <==> w in arrived
    ensures forall i :: 0 <= i < |rest| ==> rest[i] in stage' && stage'[rest[i]] in {Checking, Sleeping}
    ensures rest != [] ==> rest[0] in stage' && stage'[rest[0]] == Checking
  {
    hide Flatten;
    var all := members + rest;
    forall i | 0 <= i < |rest|
      ensures rest[i] in stage && rest[i] !in members && stage[rest[i]] in {Checking, Sleeping}
    {
      assert all[|members| + i] == rest[i];
      NotAMember(all, members, |members| + i);
    }
    forall w | w in members
      ensures w in stage
    {
      var j :| 0 <= j < |members| && members[j] == w;
      assert all[j] == w;
    }
  }

  lemma AwakeServed(stage: map<WriterId, Stage>, stage': map<WriterId, Stage>, arrived: seq<WriterId>,
                    groups: seq<Group>,
                    members: seq<WriterId>, rest: seq<WriterId>)
    requires members != [] && Awake(stage, arrived, groups, members + rest, false)
             && StagesMoved(stage, stage', members, rest)
    requires forall w :: w in members + rest ==> w !in Flatten(groups)
    ensures forall w :: w in Flatten(groups) + members ==> w in stage' && stage'[w] in {Checking, Returned}
  {
    hide Flatten;
    forall w | w in Flatten(groups)
      ensures w !in members && (rest != [] ==> w != rest[0])
    {
      assert rest != [] ==> rest[0] in members + rest;
    }
  }

  lemma NotAMember(writers: seq<WriterId>, members: seq<WriterId>, i: nat)
    requires members <= writers && |members| <= i < |writers|
    requires forall i, j :: 0 <= i < j < |writers| ==> writers[i] != writers[j]
    ensures writers[i] !in members
  {
  }

  lemma NextOfGroup(jobs: Jobs, ws: seq<WriterId>, n: nat)
    requires n < |ws|
    ensures OpsOf(jobs, ws[..n + 1]) == OpsOf(jobs, ws[..n]) + BatchOf(jobs(ws[n]))
    ensures TotalSize(jobs, ws[..n + 1]) == TotalSize(jobs, ws[..n]) + SizeOf(jobs(ws[n]))
  {
    assert ws[..n + 1][..n] == ws[..n];
  }

  lemma FirstOfGroup(jobs: Jobs, ws: seq<WriterId>)
    requires ws != [] && jobs(ws[0]).batch.Some?
    ensures OpsOf(jobs, ws[..1]) == jobs(ws[0]).batch.value
    ensures TotalSize(jobs, ws[..1]) == SizeOf(jobs(ws[0]))
  {
    assert ws[..1][..0] == [];
    assert OpsOf(jobs, []) == [] && TotalSize(jobs, []) == 0;
  }

  lemma ArriveSurvives(stage: map<WriterId, Stage>, arrived: seq<WriterId>, groups: seq<Group>, writers: seq<WriterId>,
                       w: WriterId, phase: Phase, lastSequence: nat, jobs: Jobs, bgError: bool)
    requires Accounted(arrived, groups, writers) && Awake(stage, arrived, groups, writers, phase.Idle?) && w !in stage
    requires PhaseOk(phase, writers, lastSequence, jobs, groups, bgError)
    ensures Accounted(arrived + [w], groups, writers + [w])
    ensures Awake(stage[w := Checking], arrived + [w], groups, writers + [w], phase.Idle?)
    ensures PhaseOk(phase, writers + [w], lastSequence, jobs, groups, bgError)
  {
    hide Flatten, SyncBroken, OpsOf;
    assert forall i :: 0 <= i < |arrived| ==> arrived[i] in arrived;
    assert forall x :: x in writers ==> x in arrived;
    assert forall x :: x in Flatten(groups) ==> x in arrived;
    assert Flatten(groups) + (writers + [w]) == Flatten(groups) + writers + [w];
  }

  /** A writer that is about to test its condition has been served or is in the queue, not both. */
  lemma QueueOrServed(arrived: seq<WriterId>, groups: seq<Group>, writers: seq<WriterId>, stage: map<WriterId, Stage>,
                      status: map<WriterId, bool>, w: WriterId, idle: bool)
    requires Accounted(arrived, groups, writers) && Awake(stage, arrived, groups, writers, idle)
             && Served(status, groups)
    requires w in stage && stage[w] == Checking
    ensures w in status <==> w !in writers
    ensures w !in status ==> w in writers && (writers[0] == w ==> idle)
    ensures forall i :: 0 <= i < |writers| ==> writers[i] !in Flatten(groups)
    ensures forall i, j :: 0 <= i < j < |writers| ==> writers[i] != writers[j]
  {
    hide Flatten;
    var served := Flatten(groups);
    assert forall i :: 0 <= i < |writers| ==> arrived[|served| + i] == writers[i];
    forall i, j | 0 <= i < |writers| && 0 <= j < |served|
      ensures served[j] != writers[i]
    {
      assert arrived[j] == served[j];
    }
    assert w in arrived;
  }

  // ---------- what holds in every reachable state ----------

  /** No writer is served twice. */
  lemma {:induction false} ServedOnce(groups: seq<Group>, i: nat, j: nat, w: WriterId)
    requires NoDuplicates(Flatten(groups)) && i < |groups| && j < |groups|
    requires w in groups[i].members && w in groups[j].members
    ensures i == j
    decreases |groups|
  {
    var n := |groups| - 1;
    var front, last := Flatten(groups[..n]), groups[n].members;
    forall a, b | 0 <= a < b < |front|
      ensures front[a] != front[b]
    {
      assert Flatten(groups)[a] == front[a] && Flatten(groups)[b] == front[b];
    }
    forall a, b | 0 <= a < |front| && 0 <= b < |last|
      ensures front[a] != last[b]
    {
      assert Flatten(groups)[a] == front[a] && Flatten(groups)[|front| + b] == last[b];
    }
    if i < n && j < n {
      ServedOnce(groups[..n], i, j, w);
    } else if i < n {
      InFlatten(groups[..n], i, w);
    } else if j < n {
      InFlatten(groups[..n], j, w);
    }
  }

  lemma {:induction false} InFlatten(groups: seq<Group>, i: nat, w: WriterId)
    requires i < |groups| && w in groups[i].members
    ensures w in Flatten(groups)
    decreases |groups|
  {
    if i < |groups| - 1 { InFlatten(groups[..|groups| - 1], i, w); }
  }

  lemma {:induction false} TotalGrows(groups: seq<Group>, i: nat, j: nat)
    requires i <= j <= |groups|
    ensures Total(groups[..i]) <= Total(groups[..j])
    ensures i < j ==> Total(groups[..i]) + |groups[i].ops| <= Total(groups[..j])
    decreases j
  {
    if i < j {
      assert groups[..j][..j - 1] == groups[..j - 1];
      TotalGrows(groups, i, j - 1);
    }
  }

  /** Sequence numbers are handed out once: groups have disjoint, ascending ranges up to the last sequence. */
  lemma NeverReused(groups: seq<Group>, base: nat, lastSequence: nat, jobs: Jobs, i: nat, j: nat)
    requires History(groups, base, lastSequence, jobs) && i < j < |groups| && groups[i].written && groups[j].written
    ensures base < groups[i].first && groups[i].first + |groups[i].ops| <= groups[j].first
    ensures groups[j].first + |groups[j].ops| <= lastSequence + 1
  {
    TotalGrows(groups, i, j);
    TotalGrows(groups, j, |groups|);
    assert groups[..|groups|] == groups;
  }

  ghost predicate AscendingUpTo(mem: seq<Stamped>, last: int) {
    && (forall i, j :: 0 <= i < j < |mem| ==> mem[i].sequence < mem[j].sequence)
    && (forall i :: 0 <= i < |mem| ==> mem[i].sequence <= last)
  }

  lemma AscendingSnoc(mem: seq<Stamped>, last: nat, ops: seq<BatchOp>)
    requires AscendingUpTo(mem, last)
    ensures AscendingUpTo(mem + Stamp(ops, last + 1), last + |ops|)
    ensures AscendingUpTo(mem, last + |ops|)
  {
  }

  /** The last group of a history. */
  lemma LastGroup(groups: seq<Group>, base: nat, lastSequence: nat, jobs: Jobs)
    requires History(groups, base, lastSequence, jobs) && groups != []
    ensures var init, g := groups[..|groups| - 1], groups[|groups| - 1];
            && lastSequence == base + Total(init) + |g.ops| && History(init, base, base + Total(init), jobs)
            && (g.written ==> g.first == base + Total(init) + 1) && (!g.written ==> g.ops == [] && !g.appended)
            && (g.written && g.ok ==> g.appended)
            && MemOf(groups) == MemOf(init) + (if g.ok then Stamp(g.ops, g.first) else [])
            && LogOf(groups) == LogOf(init) + Record(g)
  {
    hide OpsOf, MemOf, LogOf, GroupHonest, Stamp, Record;
    HistoryPrefix(groups, base, lastSequence, jobs);
    var init, g := groups[..|groups| - 1], groups[|groups| - 1];
    assert GroupHonest(g, jobs);
    HonestGroup(g, jobs);
    assert groups == init + [g];
    FlattenSnoc(init, g);
  }

  lemma HonestGroup(g: Group, jobs: Jobs)
    requires GroupHonest(g, jobs)
    ensures (!g.written ==> g.ops == [] && !g.appended) && (g.written && g.ok ==> g.appended)
  {
    hide OpsOf;
  }

  lemma HistoryPrefix(groups: seq<Group>, base: nat, lastSequence: nat, jobs: Jobs)
    requires History(groups, base, lastSequence, jobs) && groups != []
    ensures History(groups[..|groups| - 1], base, base + Total(groups[..|groups| - 1]), jobs)
  {
    hide GroupHonest;
    var init := groups[..|groups| - 1];
    assert forall i :: 0 <= i < |init| ==> init[..i] == groups[..i] && init[i] == groups[i];
  }

  /** The memtable's operations have strictly ascending sequence numbers, none above the last sequence. */
  lemma {:induction false} MemAscends(groups: seq<Group>, base: nat, lastSequence: nat, jobs: Jobs)
    requires History(groups, base, lastSequence, jobs)
    ensures AscendingUpTo(MemOf(groups), lastSequence)
    decreases |groups|
  {
    hide History, GroupHonest, OpsOf, MemOf, LogOf, Total, Stamp, AscendingUpTo;
    if groups == [] {
      NothingYet(lastSequence);
    } else {
      var init, g := groups[..|groups| - 1], groups[|groups| - 1];
      LastGroup(groups, base, lastSequence, jobs);
      MemAscends(init, base, base + Total(init), jobs);
      assert MemOf(init) + [] == MemOf(init);
      if g.written {
        AscendingSnoc(MemOf(init), base + Total(init), g.ops);
      } else {
        NoStamps(g.first);
      }
    }
  }

  lemma NothingYet(last: int)
    ensures MemOf([]) == [] && LogOf([]) == [] && Replayed([]) == [] && AscendingUpTo([], last)
  {
  }

  lemma NoStamps(first: nat)
    ensures Stamp([], first) == []
  {
  }

  /** Whatever is in the memtable is in the log: replaying the log brings it back under the same sequence numbers. */
  lemma {:induction false} MemIsLogged(groups: seq<Group>, base: nat, lastSequence: nat, jobs: Jobs, e: Stamped)
    requires History(groups, base, lastSequence, jobs) && e in MemOf(groups)
    ensures e in Replayed(LogOf(groups))
    decreases |groups|
  {
    hide History, GroupHonest, OpsOf, Total;
    var init, g := groups[..|groups| - 1], groups[|groups| - 1];
    LastGroup(groups, base, lastSequence, jobs);
    ReplayedSnoc(LogOf(init), g);
    if e in MemOf(init) {
      MemIsLogged(init, base, base + Total(init), jobs, e);
    }
  }

  lemma ReplayedSnoc(log: seq<Logged>, g: Group)
    ensures Replayed(log + Record(g)) == Replayed(log) + (if g.appended then Stamp(g.ops, g.first) else [])
  {
    if g.appended {
      assert (log + Record(g))[..|log|] == log;
    } else {
      assert log + Record(g) == log;
    }
  }

  /** When every append did what it reported, the log replays to exactly the memtable. */
  lemma {:induction false} LogIsMem(groups: seq<Group>, base: nat, lastSequence: nat, jobs: Jobs)
    requires History(groups, base, lastSequence, jobs) && forall i :: 0 <= i < |groups| ==> groups[i].appended ==>
               groups[i].ok
    ensures Replayed(LogOf(groups)) == MemOf(groups)
    decreases |groups|
  {
    hide History, GroupHonest, OpsOf, MemOf, LogOf, Total, Replayed, Record, Stamp;
    if groups == [] {
      NothingYet(lastSequence);
    } else {
      var init, g := groups[..|groups| - 1], groups[|groups| - 1];
      LastGroup(groups, base, lastSequence, jobs);
      LogIsMem(init, base, base + Total(init), jobs);
      ReplayedSnoc(LogOf(init), g);
      NoStamps(g.first);
    }
  }

  /** Readers see whole groups: exactly the operations of finished groups are at or below the last sequence. */
  lemma VisibleIsFinished(q: WriteQueue, i: nat)
    requires q.Valid() && i < |q.mem|
    ensures q.mem[i].sequence <= q.lastSequence <==> i < |MemOf(q.groups)|
  {
    hide GroupHonest, SyncBroken, LogOf, Awake, Accounted, Served;
    MemAscends(q.groups, q.base, q.lastSequence, q.jobs);
  }

  /** No wake-up is lost: while some call of Write has not returned, a thread can go on. */
  lemma SomeoneCanGoOn(q: WriteQueue, w: WriterId)
    requires q.Valid() && w in q.stage && q.stage[w] != Returned
    ensures !q.phase.Idle? || exists x :: x in q.stage && q.stage[x] == Checking
  {
    hide History, PhaseOk, Flatten, LogOf, MemOf;
    if w in Flatten(q.groups) {
      assert q.stage[w] == Checking;
    } else {
      assert w in q.arrived;
      assert q.writers != [];
      assert q.writers[0] in q.stage;
    }
  }

  /** `w` was served by this group, whose record holds its batch. */
  ghost predicate Holds(g: Group, w: WriterId, jobs: Jobs) {
    w in g.members && exists a, b :: g.ops == a + BatchOf(jobs(w)) + b
  }

  /** A successful write is in the log: its group's record holds its batch, and was synced if it asked for that. */
  lemma AcknowledgedIsLogged(q: WriteQueue, w: WriterId) returns (g: Group)
    requires q.Valid() && w in q.status && q.status[w] && q.jobs(w).batch.Some?
    ensures g in q.groups && Holds(g, w, q.jobs) && g.ok && Logged(g.first, g.ops) in q.log
    ensures q.jobs(w).sync ==> q.jobs(g.members[0]).sync && !g.syncFailed
  {
    hide Accounted, Awake, PhaseOk, MemOf, LogOf, Flatten, OpsOf, Record, PendingLog, PendingMem, Holds;
    var i := GroupOf(q.groups, w);
    g := q.groups[i];
    assert GroupHonest(g, q.jobs) && g.ok;
    BatchInside(q.jobs, g, w);
    LogHolds(q.groups, i);
  }

  lemma {:induction false} GroupOf(groups: seq<Group>, w: WriterId) returns (i: nat)
    requires w in Flatten(groups)
    ensures i < |groups| && w in groups[i].members
    decreases |groups|
  {
    if w in groups[|groups| - 1].members {
      i := |groups| - 1;
    } else {
      i := GroupOf(groups[..|groups| - 1], w);
    }
  }

  lemma BatchInside(jobs: Jobs, g: Group, w: WriterId)
    requires w in g.members && g.ops == OpsOf(jobs, g.members)
    ensures Holds(g, w, jobs)
  {
    var a, b := BatchAmong(jobs, g.members, w);
  }

  lemma {:induction false} BatchAmong(jobs: Jobs, ws: seq<WriterId>, w: WriterId)
    returns (a: seq<BatchOp>, b: seq<BatchOp>)
    requires w in ws
    ensures OpsOf(jobs, ws) == a + BatchOf(jobs(w)) + b
    decreases |ws|
  {
    var n := |ws| - 1;
    if ws[n] == w {
      a, b := OpsOf(jobs, ws[..n]), [];
    } else {
      a, b := BatchAmong(jobs, ws[..n], w);
      b := b + BatchOf(jobs(ws[n]));
    }
  }

  lemma {:induction false} LogHolds(groups: seq<Group>, i: nat)
    requires i < |groups| && groups[i].appended
    ensures Logged(groups[i].first, groups[i].ops) in LogOf(groups)
    decreases |groups|
  {
    if i < |groups| - 1 { LogHolds(groups[..|groups| - 1], i); }
  }

  /** The operations of `w`'s batch have consecutive numbers from `s` on. */
  ghost predicate NumberedFrom(groups: seq<Group>, jobs: Jobs, w: WriterId, s: nat) {
    exists i, a, b :: 0 <= i < |groups| && w in groups[i].members && groups[i].ops == a + BatchOf(jobs(w)) + b
                      && s == groups[i].first + |a|
  }

  /** Where the members at two places of the queue went. */
  lemma {:induction false} PlacesOf(groups: seq<Group>, a: nat, b: nat) returns (i: nat, p: nat, j: nat, r: nat)
    requires a < b < |Flatten(groups)|
    ensures i <= j < |groups| && p < |groups[i].members| && r < |groups[j].members| && (i == j ==> p < r)
    ensures groups[i].members[p] == Flatten(groups)[a] && groups[j].members[r] == Flatten(groups)[b]
    decreases |groups|
  {
    var n := |groups| - 1;
    var before := |Flatten(groups[..n])|;
    if b < before {
      i, p, j, r := PlacesOf(groups[..n], a, b);
    } else if a < before {
      i, p := PlaceOf(groups[..n], a);
      j, r := n, b - before;
    } else {
      i, p, j, r := n, a - before, n, b - before;
    }
  }

  lemma {:induction false} PlaceOf(groups: seq<Group>, a: nat) returns (i: nat, p: nat)
    requires a < |Flatten(groups)|
    ensures i < |groups| && p < |groups[i].members| && groups[i].members[p] == Flatten(groups)[a]
    decreases |groups|
  {
    var n := |groups| - 1;
    var before := |Flatten(groups[..n])|;
    if a < before {
      i, p := PlaceOf(groups[..n], a);
    } else {
      i, p := n, a - before;
    }
  }

  /** The operations up to a member's batch, and those behind it. */
  lemma {:induction false} BatchAt(jobs: Jobs, ws: seq<WriterId>, p: nat) returns (b: seq<BatchOp>)
    requires p < |ws|
    ensures OpsOf(jobs, ws) == OpsOf(jobs, ws[..p]) + BatchOf(jobs(ws[p])) + b
    decreases |ws|
  {
    var n := |ws| - 1;
    if p == n {
      b := [];
    } else {
      b := BatchAt(jobs, ws[..n], p);
      assert ws[..n][..p] == ws[..p];
      b := b + BatchOf(jobs(ws[n]));
    }
  }

  /** Of two successful writes the one that came first has the smaller sequence numbers. */
  lemma ArrivalIsOrder(q: WriteQueue, a: nat, b: nat) returns (s: nat, t: nat)
    requires q.Valid() && a < b < |q.arrived|
    requires forall w :: w in {q.arrived[a], q.arrived[b]} ==> w in q.status && q.status[w] && q.jobs(w).batch.Some?
    ensures NumberedFrom(q.groups, q.jobs, q.arrived[a], s) && NumberedFrom(q.groups, q.jobs, q.arrived[b], t)
    ensures s + |BatchOf(q.jobs(q.arrived[a]))| <= t
  {
    hide Awake, PhaseOk, MemOf, LogOf, OpsOf, Record, PendingLog, PendingMem, Flatten;
    var v, w := q.arrived[a], q.arrived[b];
    ServedIsFirst(q.arrived, q.groups, q.writers, a);
    ServedIsFirst(q.arrived, q.groups, q.writers, b);
    var i, p, j, r := PlacesOf(q.groups, a, b);
    var g, h := q.groups[i], q.groups[j];
    assert g.ok && h.ok && GroupHonest(g, q.jobs) && GroupHonest(h, q.jobs);
    WroteIt(g, p, q.jobs);
    WroteIt(h, r, q.jobs);
    var x := BatchAt(q.jobs, g.members, p);
    var y := BatchAt(q.jobs, h.members, r);
    s, t := g.first + |OpsOf(q.jobs, g.members[..p])|, h.first + |OpsOf(q.jobs, h.members[..r])|;
    assert NumberedFrom(q.groups, q.jobs, v, s) && NumberedFrom(q.groups, q.jobs, w, t);
    if i < j {
      NeverReused(q.groups, q.base, q.lastSequence, q.jobs, i, j);
    } else {
      var z := BatchAt(q.jobs, g.members[..r], p);
      assert g.members[..r][..p] == g.members[..p];
    }
  }

  lemma ServedIsFirst(arrived: seq<WriterId>, groups: seq<Group>, writers: seq<WriterId>, k: nat)
    requires Accounted(arrived, groups, writers) && k < |arrived| && arrived[k] in Flatten(groups)
    ensures k < |Flatten(groups)| && arrived[k] == Flatten(groups)[k]
  {
    var i :| 0 <= i < |Flatten(groups)| && Flatten(groups)[i] == arrived[k];
    assert arrived[i] == arrived[k];
  }

  /** A successful group with a member that brought a batch wrote the batches of its members. */
  lemma WroteIt(g: Group, p: nat, jobs: Jobs)
    requires GroupHonest(g, jobs) && g.ok && p < |g.members| && jobs(g.members[p]).batch.Some?
    ensures g.written && g.ops == OpsOf(jobs, g.members)
  {
    hide OpsOf;
  }

  /** The record of a group is no larger than its leader's batch alone, or else within the limit for groups. */
  lemma GroupFits(jobs: Jobs, ws: seq<WriterId>, n: nat)
    requires LongestGroup(jobs, ws, n) && jobs(ws[0]).batch.Some?
    ensures var first, size := HEADER_SIZE + |EncodeOps(BatchOf(jobs(ws[0])))|,
                               HEADER_SIZE + |EncodeOps(OpsOf(jobs, ws[..n]))|;
            size <= first || size <= if first <= 0x2_0000 then first + 0x2_0000 else 0x10_0000
  {
    PrefixFits(jobs, ws, n, n);
  }

  lemma {:induction false} PrefixFits(jobs: Jobs, ws: seq<WriterId>, n: nat, k: nat)
    requires LongestGroup(jobs, ws, n) && jobs(ws[0]).batch.Some? && 0 < k <= n
    ensures ByteSize(OpsOf(jobs, ws[..k])) <= TotalSize(jobs, ws[..k])
    ensures var first, size := SizeOf(jobs(ws[0])), TotalSize(jobs, ws[..k]); size <= first || size <= MaxSize(first)
    decreases k
  {
    hide OpsOf, TotalSize, EncodeOps;
    if k == 1 {
      FirstOfGroup(jobs, ws);
    } else {
      PrefixFits(jobs, ws, n, k - 1);
      NextOfGroup(jobs, ws, k - 1);
      EncodeOpsConcat(OpsOf(jobs, ws[..k - 1]), BatchOf(jobs(ws[k - 1])));
      assert MayJoin(jobs, ws, k - 1);
      if jobs(ws[k - 1]).batch.None? {
        NoOps();
      }
    }
  }

  lemma NoOps()
    ensures EncodeOps([]) == []
  {
  }

  // ---------- runs ----------

  /** One step of some thread, or of the system that answers it. */
  datatype Step =
    | Come(w: WriterId) | Test(w: WriterId) | Wake(w: WriterId)
    | Room(ok: bool) | ToLog(outcome: LogOutcome) | Insert | Release

  /** The thread is at the point where it takes this step. */
  predicate CanTake(q: WriteQueue, s: Step)
    reads q
  {
    match s
    case Come(w) => w !in q.stage
    case Test(w) => w in q.stage && q.stage[w] == Checking
    case Wake(w) => w in q.stage && q.stage[w] == Sleeping
    case Room(_) => q.phase.MakingRoom?
    case ToLog(outcome) => q.phase.Logging? && q.writers != [] && (outcome.SyncFailed? ==> q.jobs(q.writers[0]).sync)
    case Insert => q.phase.Inserting? && q.phase.group.ok && q.phase.inserted < |q.phase.group.ops|
    case Release => q.phase.Inserting? && q.phase.inserted == if q.phase.group.ok then |q.phase.group.ops| else 0
  }

  method Take(q: WriteQueue, s: Step)
    requires q.Valid() && CanTake(q, s)
    modifies q
    ensures q.Valid() && old(q.groups) <= q.groups && old(q.arrived) <= q.arrived
  {
    hide History, Accounted, Awake, Served, PhaseOk, LogOf, MemOf, PendingLog, PendingMem;
    match s
    case Come(w) => q.Arrive(w);
    case Test(w) => q.Check(w);
    case Wake(w) => q.WakeSpuriously(w);
    case Room(ok) => q.MakeRoom(ok);
    case ToLog(outcome) => q.AppendToLog(outcome);
    case Insert => q.InsertNext();
    case Release => q.Publish();
  }

  /** Any interleaving of any number of calls of Write; a step that no thread is ready for is skipped. */
  method Run(jobs: Jobs, base: nat, schedule: seq<Step>) returns (q: WriteQueue)
    ensures q.Valid() && q.jobs == jobs && q.base == base
  {
    q := new WriteQueue(jobs, base);
    for n := 0 to |schedule|
      invariant fresh(q) && q.Valid() && q.jobs == jobs && q.base == base
    {
      if CanTake(q, schedule[n]) {
        Take(q, schedule[n]);
      }
    }
  }
}
