/**
 The write lock, step by step. Each store call runs as its own thread: it waits for the lock, samples the clock
 under it, reads (the two compare-and-swap calls), writes, and releases. Threads interleave freely, readers take
 no lock, and a call may be dropped at any point, which rolls back what it has not committed.
 Every such execution is shown to be a serial history of atomic events in lock order.
 */
module Locking {
  import opened Basics
  import opened Tables
  import Retention
  import Schedule

  datatype Call =
    | CallInsert(device: string, bundle: KeyPackage)
    | CallUpsert(account: string, lamport: u64, payload: Bytes, signature: Bytes)
    | CallPutLog(candidate: AccountRecord)
    | CallPruneAccounts(retention: u64)
    | CallPruneKeyPackages(cap: u64, retention: u64)

  datatype Phase =
    | Waiting
    | Locked
    | Sampled(now: u64)
    | SawAccount(now: u64, row: Option<AccountRow>)
    | SawLog(now: u64, log: Option<LogRow>)
    | BetweenDeletes(now: u64)
    | Replied(outcome: Outcome)
    | Done(outcome: Outcome)
    | Dropped

  datatype Thread = Thread(call: Call, phase: Phase)
  type Tid = nat

  datatype World = World(db: State, holder: Option<Tid>, threads: map<Tid, Thread>)

  const INITIAL := World(EMPTY, None, map[])

  datatype Step =
    | Start(tid: Tid, call: Call)
    | Acquire(tid: Tid)
    | Sample(tid: Tid, now: u64)
    | Look(tid: Tid)
    | Write(tid: Tid)
    | Release(tid: Tid)
    | Drop(tid: Tid)
    | Query

  /** The phases in which a thread holds the lock. */
  predicate Critical(p: Phase) {
    !p.Waiting? && !p.Done? && !p.Dropped?
  }

  /** The thread is about to issue a mutating statement. */
  predicate Ready(t: Thread) {
    match t.call
    case CallInsert(_, _) => t.phase.Sampled?
    case CallUpsert(_, _, _, _) => t.phase.SawAccount?
    case CallPutLog(_) => t.phase.SawLog?
    case CallPruneAccounts(_) => t.phase.Sampled?
    case CallPruneKeyPackages(_, _) => t.phase.Sampled? || t.phase.BetweenDeletes?
  }

  predicate Enabled(w: World, step: Step) {
    match step
    case Start(tid, call) => tid !in w.threads
    case Query => true
    case Acquire(tid) => tid in w.threads && w.threads[tid].phase.Waiting? && w.holder.None?
    case Sample(tid, _) => tid in w.threads && w.threads[tid].phase.Locked?
    case Look(tid) =>
      && tid in w.threads && w.threads[tid].phase.Sampled?
      && (w.threads[tid].call.CallUpsert? || w.threads[tid].call.CallPutLog?)
    case Write(tid) => tid in w.threads && Ready(w.threads[tid])
    case Release(tid) => tid in w.threads && w.threads[tid].phase.Replied?
    case Drop(tid) => tid in w.threads && !w.threads[tid].phase.Done? && !w.threads[tid].phase.Dropped?
  }

  /** The row a compare-and-swap call's transaction reads. */
  function Seen(db: State, t: Thread): Phase
    requires t.phase.Sampled? && (t.call.CallUpsert? || t.call.CallPutLog?)
  {
    if t.call.CallUpsert? then SawAccount(t.phase.now, Lookup(db.accounts, t.call.account))
    else SawLog(t.phase.now, Lookup(db.logs, t.call.candidate.Account()))
  }

  /** The statement a ready thread commits, decided by what it read earlier and not by the tables as they are now. */
  function Committed(v: Rules, db: State, t: Thread): State
    requires Ready(t)
  {
    var at := AsI64(t.phase.now);
    match t.call
    case CallInsert(device, bundle) =>
      if RowId(device, at) in db.keypackages then db
      else db.(keypackages := db.keypackages[RowId(device, at) := bundle])
    case CallUpsert(account, lamport, payload, signature) =>
      if Fresh(t.phase.row, lamport)
      then db.(accounts := db.accounts[account := AccountRow(payload, signature, at)]) else db
    case CallPutLog(c) =>
      if Judge(v, t.phase.log, c) == Updated
      then db.(logs := db.logs[c.Account() := LogRow(c.ToBytes(), at)]) else db
    case CallPruneAccounts(retention) =>
      db.(accounts := ExpireAccountRows(db.accounts, Retention.Cutoff(t.phase.now, retention)))
    case CallPruneKeyPackages(cap, retention) =>
      if t.phase.Sampled?
      then db.(keypackages := Expire(db.keypackages, Retention.Cutoff(t.phase.now, retention)))
      else db.(keypackages := Cap(db.keypackages, AsI64(cap)))
  }

  function AfterWrite(v: Rules, db: State, t: Thread): Phase
    requires Ready(t)
  {
    match t.call
    case CallInsert(device, _) =>
      Replied(if RowId(device, AsI64(t.phase.now)) in db.keypackages then DuplicateKey else Inserted)
    case CallUpsert(_, lamport, _, _) => Replied(Applied(Fresh(t.phase.row, lamport)))
    case CallPutLog(c) => Replied(Compared(Judge(v, t.phase.log, c)))
    case CallPruneAccounts(_) => Replied(Deleted)
    case CallPruneKeyPackages(_, _) => if t.phase.Sampled? then BetweenDeletes(t.phase.now) else Replied(Deleted)
  }

  function At(w: World, tid: Tid, p: Phase): map<Tid, Thread>
    requires tid in w.threads
  {
    w.threads[tid := w.threads[tid].(phase := p)]
  }

  function Fire(v: Rules, w: World, step: Step): World
    requires Enabled(w, step)
  {
    match step
    case Start(tid, call) => w.(threads := w.threads[tid := Thread(call, Waiting)])
    case Query => w
    case Acquire(tid) => w.(holder := Some(tid), threads := At(w, tid, Locked))
    case Sample(tid, now) => w.(threads := At(w, tid, Sampled(now)))
    case Look(tid) => w.(threads := At(w, tid, Seen(w.db, w.threads[tid])))
    case Write(tid) =>
      w.(db := Committed(v, w.db, w.threads[tid]), threads := At(w, tid, AfterWrite(v, w.db, w.threads[tid])))
    case Release(tid) => w.(holder := None, threads := At(w, tid, Done(w.threads[tid].phase.outcome)))
    case Drop(tid) =>
      w.(holder := if w.holder == Some(tid) then None else w.holder, threads := At(w, tid, Dropped))
  }

  predicate Possible(v: Rules, trace: seq<Step>)
    decreases |trace|, 0
  {
    trace == [] || (Possible(v, trace[..|trace| - 1]) && Enabled(Exec(v, trace[..|trace| - 1]), trace[|trace| - 1]))
  }

  function Exec(v: Rules, trace: seq<Step>): World
    requires Possible(v, trace)
    decreases |trace|, 1
  {
    if trace == [] then INITIAL else Fire(v, Exec(v, trace[..|trace| - 1]), trace[|trace| - 1])
  }

  // ---- the serial history an execution amounts to ----

  /** The atomic event a ready thread's statement stands for. */
  function EventOf(t: Thread): Event
    requires Ready(t)
  {
    Event(t.phase.now,
      match t.call
      case CallInsert(device, bundle) => Insert(device, bundle)
      case CallUpsert(account, lamport, payload, signature) => Upsert(account, lamport, payload, signature)
      case CallPutLog(c) => PutLog(c)
      case CallPruneAccounts(retention) => ExpireAccounts(retention)
      case CallPruneKeyPackages(cap, retention) =>
        if t.phase.Sampled? then ExpireKeyPackages(retention) else CapKeyPackages(cap))
  }

  /** The event whose answer is the call's reply. */
  function LastAction(c: Call): Action {
    match c
    case CallInsert(device, bundle) => Insert(device, bundle)
    case CallUpsert(account, lamport, payload, signature) => Upsert(account, lamport, payload, signature)
    case CallPutLog(candidate) => PutLog(candidate)
    case CallPruneAccounts(retention) => ExpireAccounts(retention)
    case CallPruneKeyPackages(cap, _) => CapKeyPackages(cap)
  }

  /** A committed event, the thread that committed it and how many times the lock had been taken by then. */
  datatype Entry = Entry(tid: Tid, ticket: nat, event: Event)

  function Acquired(trace: seq<Step>): seq<Tid>
    decreases |trace|
  {
    if trace == [] then []
    else
      var rest, step := Acquired(trace[..|trace| - 1]), trace[|trace| - 1];
      if step.Acquire? then rest + [step.tid] else rest
  }

  function Ledger(v: Rules, trace: seq<Step>): seq<Entry>
    requires Possible(v, trace)
    decreases |trace|
  {
    if trace == [] then []
    else
      var before, step := trace[..|trace| - 1], trace[|trace| - 1];
      if step.Write?
      then Ledger(v, before) + [Entry(step.tid, |Acquired(before)|, EventOf(Exec(v, before).threads[step.tid]))]
      else Ledger(v, before)
  }

  function Events(ledger: seq<Entry>): seq<Event> {
    seq(|ledger|, i requires 0 <= i < |ledger| => ledger[i].event)
  }

  lemma EventsSnoc(ledger: seq<Entry>, x: Entry)
    ensures Events(ledger + [x]) == Events(ledger) + [x.event]
  {
  }

  lemma EventsPrefix(ledger: seq<Entry>, n: nat)
    requires n <= |ledger|
    ensures Events(ledger[..n]) == Events(ledger)[..n]
  {
  }

  // ---- what every step keeps ----

  /** What a thread has read is still what the tables hold. */
  predicate Current(db: State, t: Thread) {
    match t.phase
    case SawAccount(_, row) => t.call.CallUpsert? && row == Lookup(db.accounts, t.call.account)
    case SawLog(_, log) => t.call.CallPutLog? && log == Lookup(db.logs, t.call.candidate.Account())
    case BetweenDeletes(_) => t.call.CallPruneKeyPackages?
    case _ => true
  }

  /** The reply is the answer the atomic store gives at this thread's place in the serial history. */
  ghost predicate Justified(v: Rules, ledger: seq<Entry>, tid: Tid, c: Call, o: Outcome) {
    exists i :: 0 <= i < |ledger| && ledger[i].tid == tid && ledger[i].event.action == LastAction(c)
      && Answer(v, Run(v, Events(ledger[..i])), ledger[i].event) == o
  }

  ghost predicate Exclusive(w: World) {
    && (w.holder.Some? ==> w.holder.value in w.threads)
    && (forall t :: t in w.threads ==> (Critical(w.threads[t].phase) <==> w.holder == Some(t)))
    && (forall t :: t in w.threads ==> Current(w.db, w.threads[t]))
  }

  ghost predicate AllJustified(v: Rules, ledger: seq<Entry>, threads: map<Tid, Thread>) {
    forall t :: t in threads && Answered(threads[t].phase) ==>
      Justified(v, ledger, t, threads[t].call, threads[t].phase.outcome)
  }

  lemma ExclusiveStep(v: Rules, w: World, step: Step)
    requires Exclusive(w) && Enabled(w, step)
    ensures Exclusive(Fire(v, w, step))
  {
  }

  /** Under the lock, deciding on what was read earlier is deciding on the tables as they are. */
  lemma WriteIsAtomic(v: Rules, db: State, t: Thread)
    requires Ready(t) && Current(db, t)
    ensures Committed(v, db, t) == Next(v, db, EventOf(t))
    ensures AfterWrite(v, db, t) ==
            if t.call.CallPruneKeyPackages? && t.phase.Sampled? then BetweenDeletes(t.phase.now)
            else Replied(Answer(v, db, EventOf(t)))
  {
  }

  lemma {:induction false} ExclusiveExec(v: Rules, trace: seq<Step>)
    requires Possible(v, trace)
    ensures Exclusive(Exec(v, trace))
    decreases |trace|
  {
    if trace != [] {
      ExclusiveExec(v, trace[..|trace| - 1]);
      ExclusiveStep(v, Exec(v, trace[..|trace| - 1]), trace[|trace| - 1]);
    }
  }

  lemma JustifiedGrows(v: Rules, ledger: seq<Entry>, x: Entry, tid: Tid, c: Call, o: Outcome)
    requires Justified(v, ledger, tid, c, o)
    ensures Justified(v, ledger + [x], tid, c, o)
  {
    var i :| 0 <= i < |ledger| && ledger[i].tid == tid && ledger[i].event.action == LastAction(c)
      && Answer(v, Run(v, Events(ledger[..i])), ledger[i].event) == o;
    assert (ledger + [x])[i] == ledger[i] && (ledger + [x])[..i] == ledger[..i];
  }

  /** A write: the new reply is justified by the new entry, the others by the entries they had. */
  lemma WriteJustified(v: Rules, w: World, ledger: seq<Entry>, tid: Tid, ticket: nat)
    requires Exclusive(w) && Enabled(w, Write(tid)) && w.db == Run(v, Events(ledger))
    requires AllJustified(v, ledger, w.threads)
    ensures AllJustified(v, ledger + [Entry(tid, ticket, EventOf(w.threads[tid]))], Fire(v, w, Write(tid)).threads)
  {
    var x := Entry(tid, ticket, EventOf(w.threads[tid]));
    var w' := Fire(v, w, Write(tid));
    WriteIsAtomic(v, w.db, w.threads[tid]);
    forall t | t in w'.threads && Answered(w'.threads[t].phase)
      ensures Justified(v, ledger + [x], t, w'.threads[t].call, w'.threads[t].phase.outcome)
    {
      if t == tid {
        var i := |ledger|;
        assert (ledger + [x])[i] == x && (ledger + [x])[..i] == ledger;
      } else {
        JustifiedGrows(v, ledger, x, t, w.threads[t].call, w.threads[t].phase.outcome);
      }
    }
  }

  /**
   Refinement: whatever the interleaving, the tables are those of the serial history in the ledger, and every
   call that got a reply got the one the atomic store gives at its place in that history.
   */
  lemma {:induction false} RefinesSerial(v: Rules, trace: seq<Step>)
    requires Possible(v, trace)
    ensures Exec(v, trace).db == Run(v, Events(Ledger(v, trace)))
    ensures AllJustified(v, Ledger(v, trace), Exec(v, trace).threads)
    decreases |trace|
  {
    if trace != [] {
      var before, step := trace[..|trace| - 1], trace[|trace| - 1];
      var w, ledger := Exec(v, before), Ledger(v, before);
      RefinesSerial(v, before);
      ExclusiveExec(v, before);
      if step.Write? {
        var x := Entry(step.tid, |Acquired(before)|, EventOf(w.threads[step.tid]));
        EventsSnoc(ledger, x);
        RunSnoc(v, EMPTY, Events(ledger), x.event);
        WriteIsAtomic(v, w.db, w.threads[step.tid]);
        WriteJustified(v, w, ledger, step.tid, |Acquired(before)|);
      }
    }
  }

  // ---- each call commits its own events, once ----

  /** What of a thread's call the ledger already holds. */
  ghost predicate Accounted(ledger: seq<Entry>, tid: Tid, t: Thread) {
    && (forall i :: 0 <= i < |ledger| && ledger[i].tid == tid ==>
          || ledger[i].event.action == LastAction(t.call)
          || (t.call.CallPruneKeyPackages? && ledger[i].event.action == ExpireKeyPackages(t.call.retention)))
    && (forall i, j :: 0 <= i < j < |ledger| && ledger[i].tid == ledger[j].tid == tid ==>
          ledger[i].event.action.ExpireKeyPackages? && ledger[j].event.action.CapKeyPackages?)
    && (t.phase.Waiting? || t.phase.Locked? || t.phase.Sampled? || t.phase.SawAccount? || t.phase.SawLog? ==>
          forall i :: 0 <= i < |ledger| ==> ledger[i].tid != tid)
    && (t.phase.BetweenDeletes? ==>
          forall i :: 0 <= i < |ledger| && ledger[i].tid == tid ==> ledger[i].event.action.ExpireKeyPackages?)
  }

  ghost predicate AllAccounted(ledger: seq<Entry>, threads: map<Tid, Thread>) {
    && (forall i :: 0 <= i < |ledger| ==> ledger[i].tid in threads)
    && (forall t :: t in threads ==> Accounted(ledger, t, threads[t]))
  }

  lemma AccountedOwn(v: Rules, db: State, ledger: seq<Entry>, x: Entry, t: Thread)
    requires Ready(t) && Current(db, t) && x.event == EventOf(t) && Accounted(ledger, x.tid, t)
    ensures Accounted(ledger + [x], x.tid, t.(phase := AfterWrite(v, db, t)))
  {
  }

  lemma AccountedOther(ledger: seq<Entry>, x: Entry, tid: Tid, t: Thread)
    requires Accounted(ledger, tid, t) && x.tid != tid
    ensures Accounted(ledger + [x], tid, t)
  {
  }

  /** A write adds one entry, its own thread's, in a phase that has no more of that kind to come. */
  lemma WriteAccounted(v: Rules, w: World, ledger: seq<Entry>, tid: Tid, ticket: nat)
    requires Exclusive(w) && Enabled(w, Write(tid)) && AllAccounted(ledger, w.threads)
    ensures AllAccounted(ledger + [Entry(tid, ticket, EventOf(w.threads[tid]))], Fire(v, w, Write(tid)).threads)
  {
    var x := Entry(tid, ticket, EventOf(w.threads[tid]));
    var after := Fire(v, w, Write(tid)).threads;
    forall t | t in after
      ensures Accounted(ledger + [x], t, after[t])
    {
      assert Accounted(ledger, t, w.threads[t]);
      if t == tid {
        AccountedOwn(v, w.db, ledger, x, w.threads[tid]);
      } else {
        AccountedOther(ledger, x, t, w.threads[t]);
      }
    }
  }

  /** Every entry is its thread's own: at most one a call, at most two for a keypackage prune, age delete first. */
  lemma {:induction false} CommitsOnce(v: Rules, trace: seq<Step>)
    requires Possible(v, trace)
    ensures AllAccounted(Ledger(v, trace), Exec(v, trace).threads)
    decreases |trace|
  {
    if trace != [] {
      var before, step := trace[..|trace| - 1], trace[|trace| - 1];
      var w, ledger := Exec(v, before), Ledger(v, before);
      CommitsOnce(v, before);
      ExclusiveExec(v, before);
      if step.Write? {
        WriteAccounted(v, w, ledger, step.tid, |Acquired(before)|);
      } else {
        var w' := Exec(v, trace);
        forall t | t in w'.threads
          ensures Accounted(ledger, t, w'.threads[t])
        {
          if t in w.threads { assert Accounted(ledger, t, w.threads[t]); }
        }
      }
    }
  }

  /** Entries `i` and `i + 1` are the two deletes of one prune call, at one clock reading. */
  ghost predicate PairAt(ledger: seq<Entry>, i: int, tid: Tid, c: Call) {
    && c.CallPruneKeyPackages? && 0 <= i && i + 1 < |ledger|
    && ledger[i].tid == tid && ledger[i + 1].tid == tid
    && [ledger[i].event, ledger[i + 1].event] == Schedule.PruneEvents(ledger[i].event.now, c.retention, c.cap)
  }

  predicate Answered(p: Phase) {
    p.Replied? || p.Done?
  }

  /** An answered prune has both deletes, side by side; one between them committed the last entry. */
  ghost predicate Paired(ledger: seq<Entry>, tid: Tid, t: Thread) {
    t.call.CallPruneKeyPackages? ==>
      && (Answered(t.phase) ==> exists i :: PairAt(ledger, i, tid, t.call))
      && (t.phase.BetweenDeletes? ==>
            && ledger != [] && ledger[|ledger| - 1].tid == tid
            && ledger[|ledger| - 1].event == Event(t.phase.now, ExpireKeyPackages(t.call.retention)))
  }

  lemma PairedOwn(v: Rules, db: State, ledger: seq<Entry>, x: Entry, t: Thread)
    requires Ready(t) && x.event == EventOf(t) && Paired(ledger, x.tid, t)
    ensures Paired(ledger + [x], x.tid, t.(phase := AfterWrite(v, db, t)))
  {
    if t.call.CallPruneKeyPackages? && t.phase.BetweenDeletes? {
      assert PairAt(ledger + [x], |ledger| - 1, x.tid, t.call);
    }
  }

  lemma PairedOther(ledger: seq<Entry>, x: Entry, tid: Tid, t: Thread)
    requires Paired(ledger, tid, t) && !t.phase.BetweenDeletes?
    ensures Paired(ledger + [x], tid, t)
  {
    if t.call.CallPruneKeyPackages? && Answered(t.phase) {
      var i :| PairAt(ledger, i, tid, t.call);
      assert PairAt(ledger + [x], i, tid, t.call);
    }
  }

  /** Nothing comes between a prune's two deletes, and an answered prune has committed both. */
  lemma {:induction false} PrunesCommitPairs(v: Rules, trace: seq<Step>)
    requires Possible(v, trace)
    ensures forall t :: t in Exec(v, trace).threads ==> Paired(Ledger(v, trace), t, Exec(v, trace).threads[t])
    decreases |trace|
  {
    if trace != [] {
      var before, step := trace[..|trace| - 1], trace[|trace| - 1];
      var w, ledger, after := Exec(v, before), Ledger(v, before), Exec(v, trace).threads;
      PrunesCommitPairs(v, before);
      ExclusiveExec(v, before);
      forall t | t in after
        ensures Paired(Ledger(v, trace), t, after[t])
      {
        if step.Write? {
          var x := Entry(step.tid, |Acquired(before)|, EventOf(w.threads[step.tid]));
          assert Critical(w.threads[step.tid].phase);
          if t == step.tid {
            PairedOwn(v, w.db, ledger, x, w.threads[t]);
          } else {
            PairedOther(ledger, x, t, w.threads[t]);
          }
        } else if t in w.threads {
          assert Paired(ledger, t, w.threads[t]);
        }
      }
    }
  }

  // ---- progress ----

  /** How many more steps a thread can take. */
  function Rank(p: Phase): nat {
    match p
    case Waiting => 5
    case Locked => 4
    case Sampled(_) => 3
    case SawAccount(_, _) => 2
    case SawLog(_, _) => 2
    case BetweenDeletes(_) => 2
    case Replied(_) => 1
    case Done(_) => 0
    case Dropped => 0
  }

  function Moves(trace: seq<Step>, t: Tid): nat
    decreases |trace|
  {
    if trace == [] then 0
    else
      var step := trace[|trace| - 1];
      Moves(trace[..|trace| - 1], t) + (if !step.Start? && !step.Query? && step.tid == t then 1 else 0)
  }

  /** A call takes at most five steps, however the threads interleave. */
  lemma {:induction false} AtMostFiveSteps(v: Rules, trace: seq<Step>, t: Tid)
    requires Possible(v, trace)
    ensures if t in Exec(v, trace).threads then Moves(trace, t) + Rank(Exec(v, trace).threads[t].phase) <= 5
            else Moves(trace, t) == 0
    decreases |trace|
  {
    if trace != [] {
      AtMostFiveSteps(v, trace[..|trace| - 1], t);
    }
  }

  /** While a call is unfinished, some call can take its next step: the lock never deadlocks. */
  lemma SomeStepEnabled(v: Rules, trace: seq<Step>, t: Tid) returns (step: Step)
    requires Possible(v, trace) && t in Exec(v, trace).threads && Rank(Exec(v, trace).threads[t].phase) > 0
    ensures Enabled(Exec(v, trace), step) && !step.Start? && !step.Query? && !step.Drop?
  {
    var w := Exec(v, trace);
    ExclusiveExec(v, trace);
    if w.holder.None? {
      step := Acquire(t);
    } else {
      var h := w.holder.value;
      assert Current(w.db, w.threads[h]);
      match w.threads[h].phase {
        case Locked => step := Sample(h, 0);
        case Sampled(_) =>
          step := if w.threads[h].call.CallUpsert? || w.threads[h].call.CallPutLog? then Look(h) else Write(h);
        case Replied(_) => step := Release(h);
        case _ => step := Write(h);
      }
    }
  }

  // ---- lock order and the clock ----

  /** The ledger is in the order in which the lock was taken: ticket `k` is the `k`-th acquirer's. */
  ghost predicate LockOrder(ledger: seq<Entry>, acquired: seq<Tid>) {
    && (forall i :: 0 <= i < |ledger| ==>
          1 <= ledger[i].ticket <= |acquired| && acquired[ledger[i].ticket - 1] == ledger[i].tid)
    && (forall i, j :: 0 <= i <= j < |ledger| ==> ledger[i].ticket <= ledger[j].ticket)
  }

  lemma {:induction false} HolderIsLastAcquirer(v: Rules, trace: seq<Step>)
    requires Possible(v, trace)
    ensures Exec(v, trace).holder.Some? ==>
              Acquired(trace) != [] && Exec(v, trace).holder.value == Acquired(trace)[|Acquired(trace)| - 1]
    decreases |trace|
  {
    if trace != [] {
      HolderIsLastAcquirer(v, trace[..|trace| - 1]);
    }
  }

  lemma {:induction false} LedgerInLockOrder(v: Rules, trace: seq<Step>)
    requires Possible(v, trace)
    ensures LockOrder(Ledger(v, trace), Acquired(trace))
    decreases |trace|
  {
    if trace != [] {
      var before, step := trace[..|trace| - 1], trace[|trace| - 1];
      LedgerInLockOrder(v, before);
      ExclusiveExec(v, before);
      HolderIsLastAcquirer(v, before);
    }
  }

  /** A thread takes the lock at most once, so tickets name threads. */
  lemma {:induction false} AcquiresOnce(v: Rules, trace: seq<Step>)
    requires Possible(v, trace)
    ensures forall i, j :: 0 <= i < j < |Acquired(trace)| ==> Acquired(trace)[i] != Acquired(trace)[j]
    ensures forall t :: t in Acquired(trace) ==>
              t in Exec(v, trace).threads && !Exec(v, trace).threads[t].phase.Waiting?
    decreases |trace|
  {
    if trace != [] {
      AcquiresOnce(v, trace[..|trace| - 1]);
    }
  }

  /** The clock as the calls read it, in real time, does not go back. */
  ghost predicate SteadyClock(trace: seq<Step>) {
    && (forall i :: 0 <= i < |trace| && trace[i].Sample? ==> trace[i].now < TWO63)
    && (forall i, j :: 0 <= i <= j < |trace| && trace[i].Sample? && trace[j].Sample? ==> trace[i].now <= trace[j].now)
  }

  predicate HasNow(p: Phase) {
    p.Sampled? || p.SawAccount? || p.SawLog? || p.BetweenDeletes?
  }

  ghost predicate WasSampled(trace: seq<Step>, now: u64) {
    exists k :: 0 <= k < |trace| && trace[k].Sample? && trace[k].now == now
  }

  /** Committed times were sampled, and a time still in use is not older than any of them. */
  ghost predicate InTime(trace: seq<Step>, es: seq<Event>, threads: map<Tid, Thread>) {
    && (forall i :: 0 <= i < |es| ==> WasSampled(trace, es[i].now))
    && (forall t :: t in threads && HasNow(threads[t].phase) ==>
          && WasSampled(trace, threads[t].phase.now)
          && forall i :: 0 <= i < |es| ==> es[i].now <= threads[t].phase.now)
  }

  /** A new sample is the latest so far, and only the holder's sample can be committed. */
  lemma InTimeStep(v: Rules, trace: seq<Step>, w: World, es: seq<Event>)
    requires trace != [] && SteadyClock(trace) && Enabled(w, trace[|trace| - 1]) && Exclusive(w)
    requires InTime(trace[..|trace| - 1], es, w.threads)
    ensures var step := trace[|trace| - 1];
            InTime(trace, if step.Write? then es + [EventOf(w.threads[step.tid])] else es, Fire(v, w, step).threads)
  {
  }

  lemma ClockedSnoc(trace: seq<Step>, es: seq<Event>, e: Event)
    requires SteadyClock(trace) && WasSampled(trace, e.now)
    requires Clocked(es) && forall i :: 0 <= i < |es| ==> es[i].now <= e.now
    ensures Clocked(es + [e])
  {
  }

  /**
   Because the clock is read under the lock, a clock that does not go back in real time stamps the serial history
   in order: every execution's history is `Clocked`.
   */
  lemma {:induction false} HistoryClocked(v: Rules, trace: seq<Step>)
    requires Possible(v, trace) && SteadyClock(trace)
    ensures Clocked(Events(Ledger(v, trace)))
    ensures InTime(trace, Events(Ledger(v, trace)), Exec(v, trace).threads)
    decreases |trace|
  {
    if trace != [] {
      var n := |trace| - 1;
      var before, step := trace[..n], trace[n];
      assert forall i :: 0 <= i < n ==> before[i] == trace[i];
      HistoryClocked(v, before);
      ExclusiveExec(v, before);
      var w, es := Exec(v, before), Events(Ledger(v, before));
      InTimeStep(v, trace, w, es);
      if step.Write? {
        EventsSnoc(Ledger(v, before), Entry(step.tid, |Acquired(before)|, EventOf(w.threads[step.tid])));
        ClockedSnoc(before, es, EventOf(w.threads[step.tid]));
      }
    }
  }

  /** The thread itself read this time. */
  ghost predicate SampledBy(trace: seq<Step>, t: Tid, now: u64) {
    exists k :: 0 <= k < |trace| && trace[k] == Sample(t, now)
  }

  lemma SampledByGrows(trace: seq<Step>, step: Step, t: Tid, now: u64)
    requires SampledBy(trace, t, now)
    ensures SampledBy(trace + [step], t, now)
  {
    var k :| 0 <= k < |trace| && trace[k] == Sample(t, now);
    assert (trace + [step])[k] == Sample(t, now);
  }

  /** Every commit carries the time its own thread read. */
  lemma {:induction false} StampsAreOwn(v: Rules, trace: seq<Step>)
    requires Possible(v, trace)
    ensures forall i :: 0 <= i < |Ledger(v, trace)| ==>
              SampledBy(trace, Ledger(v, trace)[i].tid, Ledger(v, trace)[i].event.now)
    ensures forall t :: t in Exec(v, trace).threads && HasNow(Exec(v, trace).threads[t].phase) ==>
              SampledBy(trace, t, Exec(v, trace).threads[t].phase.now)
    decreases |trace|
  {
    if trace != [] {
      var n := |trace| - 1;
      var before, step := trace[..n], trace[n];
      var w, after, ledger := Exec(v, before), Exec(v, trace), Ledger(v, trace);
      StampsAreOwn(v, before);
      assert trace == before + [step];
      forall i | 0 <= i < |ledger|
        ensures SampledBy(trace, ledger[i].tid, ledger[i].event.now)
      {
        SampledByGrows(before, step, ledger[i].tid, ledger[i].event.now);
      }
      forall t | t in after.threads && HasNow(after.threads[t].phase)
        ensures SampledBy(trace, t, after.threads[t].phase.now)
      {
        if step == Sample(t, after.threads[t].phase.now) {
          assert trace[n] == step;
        } else {
          SampledByGrows(before, step, t, after.threads[t].phase.now);
        }
      }
    }
  }

  /** A thread reads the clock at most once, after it has taken the lock. */
  lemma {:induction false} SamplesOnce(v: Rules, trace: seq<Step>)
    requires Possible(v, trace)
    ensures forall j, k :: 0 <= j < k < |trace| && trace[j].Sample? && trace[k].Sample? ==> trace[j].tid != trace[k].tid
    ensures forall k :: 0 <= k < |trace| && trace[k].Sample? ==>
              && trace[k].tid in Exec(v, trace).threads
              && !Exec(v, trace).threads[trace[k].tid].phase.Waiting?
              && !Exec(v, trace).threads[trace[k].tid].phase.Locked?
    decreases |trace|
  {
    if trace != [] {
      var n := |trace| - 1;
      SamplesOnce(v, trace[..n]);
      assert forall k :: 0 <= k < n ==> trace[..n][k] == trace[k];
    }
  }

  // ---- readers ----

  lemma {:induction false} LedgerGrows(v: Rules, trace: seq<Step>, p: nat)
    requires Possible(v, trace) && p <= |trace|
    ensures Possible(v, trace[..p])
    ensures Ledger(v, trace[..p]) <= Ledger(v, trace)
    decreases |trace|
  {
    if p == |trace| {
      assert trace[..p] == trace;
    } else {
      LedgerGrows(v, trace[..|trace| - 1], p);
      assert trace[..|trace| - 1][..p] == trace[..p];
    }
  }

  /** A reader that takes no lock sees the tables after some whole number of committed events, never fewer later on. */
  lemma ReadsCommitted(v: Rules, trace: seq<Step>, p: nat, q: nat)
    requires Possible(v, trace) && p <= q <= |trace|
    ensures Possible(v, trace[..p]) && Possible(v, trace[..q])
    ensures exists m, n :: 0 <= m <= n <= |Ledger(v, trace)|
              && Exec(v, trace[..p]).db == Run(v, Events(Ledger(v, trace))[..m])
              && Exec(v, trace[..q]).db == Run(v, Events(Ledger(v, trace))[..n])
  {
    LedgerGrows(v, trace, p);
    LedgerGrows(v, trace, q);
    assert trace[..q][..p] == trace[..p];
    LedgerGrows(v, trace[..q], p);
    RefinesSerial(v, trace[..p]);
    RefinesSerial(v, trace[..q]);
    var m, n := |Ledger(v, trace[..p])|, |Ledger(v, trace[..q])|;
    EventsPrefix(Ledger(v, trace), m);
    EventsPrefix(Ledger(v, trace), n);
    assert Ledger(v, trace)[..m] == Ledger(v, trace[..p]);
    assert Ledger(v, trace)[..n] == Ledger(v, trace[..q]);
  }

  // ---- real time ----

  predicate Finished(w: World, t: Tid) {
    t in w.threads && (w.threads[t].phase.Done? || w.threads[t].phase.Dropped?)
  }

  lemma {:induction false} FinishedCommitsNoMore(v: Rules, trace: seq<Step>, p: nat, t: Tid)
    requires Possible(v, trace) && p <= |trace|
    requires Possible(v, trace[..p]) && Finished(Exec(v, trace[..p]), t)
    ensures Finished(Exec(v, trace), t)
    ensures forall i :: |Ledger(v, trace[..p])| <= i < |Ledger(v, trace)| ==> Ledger(v, trace)[i].tid != t
    decreases |trace|
  {
    if p == |trace| {
      assert trace[..p] == trace;
    } else {
      var before := trace[..|trace| - 1];
      assert before[..p] == trace[..p];
      FinishedCommitsNoMore(v, before, p, t);
    }
  }

  /** The serial order respects real time: a call finished before another starts comes before it in the ledger. */
  lemma RealTimeOrder(v: Rules, trace: seq<Step>, p: nat, a: Tid, i: nat, j: nat)
    requires Possible(v, trace) && p < |trace| && trace[p].Start? && Possible(v, trace[..p])
    requires Finished(Exec(v, trace[..p]), a)
    requires i < |Ledger(v, trace)| && j < |Ledger(v, trace)|
    requires Ledger(v, trace)[i].tid == a && Ledger(v, trace)[j].tid == trace[p].tid
    ensures i < j
  {
    FinishedCommitsNoMore(v, trace, p, a);
    LedgerGrows(v, trace, p);
    LedgerGrows(v, trace, p + 1);
    assert trace[..p + 1][..p] == trace[..p];
    CommitsOnce(v, trace[..p]);
  }
}
