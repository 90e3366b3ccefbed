/**
 What readers see and what callers are told in every interleaving: the theorems about serial histories, carried over
 to executions of the threads through the refinement in `Locking`.
 */
module Interleavings {
  import opened Basics
  import opened Tables
  import opened Locking
  import Accounts
  import Logs
  import Pipeline
  import Reachable
  import Retention
  import Schedule

  /** The serial history an execution amounts to. */
  function Serial(v: Rules, trace: seq<Step>): seq<Event>
    requires Possible(v, trace)
  {
    Events(Ledger(v, trace))
  }

  // ---- where the committed events come from ----

  ghost predicate StartedWith(trace: seq<Step>, t: Tid, c: Call) {
    exists k :: 0 <= k < |trace| && trace[k] == Start(t, c)
  }

  lemma {:induction false} ThreadsStarted(v: Rules, trace: seq<Step>, t: Tid)
    requires Possible(v, trace) && t in Exec(v, trace).threads
    ensures StartedWith(trace, t, Exec(v, trace).threads[t].call)
    decreases |trace|
  {
    var n := |trace| - 1;
    var before := trace[..n];
    if t in Exec(v, before).threads {
      ThreadsStarted(v, before, t);
      var k :| 0 <= k < n && before[k] == Start(t, Exec(v, before).threads[t].call);
      assert trace[k] == before[k];
    } else {
      assert trace[n] == Start(t, Exec(v, trace).threads[t].call);
    }
  }

  /** An event of this call: its only one, or either delete of a keypackage prune. */
  predicate Belongs(a: Action, c: Call) {
    a == LastAction(c) || (c.CallPruneKeyPackages? && a == ExpireKeyPackages(c.retention))
  }

  lemma EntryStarted(v: Rules, trace: seq<Step>, i: nat) returns (c: Call)
    requires Possible(v, trace) && i < |Ledger(v, trace)|
    ensures StartedWith(trace, Ledger(v, trace)[i].tid, c) && Belongs(Serial(v, trace)[i].action, c)
  {
    CommitsOnce(v, trace);
    var t := Ledger(v, trace)[i].tid;
    c := Exec(v, trace).threads[t].call;
    assert Accounted(Ledger(v, trace), t, Exec(v, trace).threads[t]);
    ThreadsStarted(v, trace, t);
  }

  /** Where an answered call stands in the serial history: its reply is the atomic store's answer there. */
  lemma ReplyPlace(v: Rules, trace: seq<Step>, t: Tid) returns (k: nat)
    requires Possible(v, trace) && t in Exec(v, trace).threads && Answered(Exec(v, trace).threads[t].phase)
    ensures k < |Ledger(v, trace)| && Ledger(v, trace)[k].tid == t
    ensures Serial(v, trace)[k].action == LastAction(Exec(v, trace).threads[t].call)
    ensures Answer(v, Run(v, Serial(v, trace)[..k]), Serial(v, trace)[k]) == Exec(v, trace).threads[t].phase.outcome
  {
    var ledger, th := Ledger(v, trace), Exec(v, trace).threads[t];
    RefinesSerial(v, trace);
    assert Justified(v, ledger, t, th.call, th.phase.outcome);
    k :| 0 <= k < |ledger| && ledger[k].tid == t && ledger[k].event.action == LastAction(th.call)
      && Answer(v, Run(v, Events(ledger[..k])), ledger[k].event) == th.phase.outcome;
    EventsPrefix(ledger, k);
  }

  /**
   What an answered call has done, spelt out call by call: it has one place in the serial history, at the time its
   thread read, and there stands the action it was called for.
   */
  lemma AnsweredCommits(v: Rules, trace: seq<Step>, t: Tid) returns (k: nat)
    requires Possible(v, trace) && t in Exec(v, trace).threads && Answered(Exec(v, trace).threads[t].phase)
    ensures k < |Ledger(v, trace)| && Ledger(v, trace)[k].tid == t
    ensures SampledBy(trace, t, Serial(v, trace)[k].now)
    ensures var call, action := Exec(v, trace).threads[t].call, Serial(v, trace)[k].action;
            && (call.CallInsert? ==> action == Insert(call.device, call.bundle))
            && (call.CallUpsert? ==> action == Upsert(call.account, call.lamport, call.payload, call.signature))
            && (call.CallPutLog? ==> action == PutLog(call.candidate))
            && (call.CallPruneAccounts? ==> action == ExpireAccounts(call.retention))
            && (call.CallPruneKeyPackages? ==>
                  && action == CapKeyPackages(call.cap) && k > 0 && Ledger(v, trace)[k - 1].tid == t
                  && Serial(v, trace)[k - 1] == Event(Serial(v, trace)[k].now, ExpireKeyPackages(call.retention)))
  {
    StampsAreOwn(v, trace);
    var call := Exec(v, trace).threads[t].call;
    if call.CallPruneKeyPackages? {
      PrunesCommitPairs(v, trace);
      assert Paired(Ledger(v, trace), t, Exec(v, trace).threads[t]);
      var i :| PairAt(Ledger(v, trace), i, t, call);
      k := i + 1;
    } else {
      k := ReplyPlace(v, trace, t);
    }
  }

  /** An answered prune of the accounts has deleted exactly the rows older than the cutoff of the time it read. */
  lemma AccountPruneTakesEffect(v: Rules, trace: seq<Step>, t: Tid) returns (k: nat, now: u64)
    requires Possible(v, trace) && t in Exec(v, trace).threads && Answered(Exec(v, trace).threads[t].phase)
    requires Exec(v, trace).threads[t].call.CallPruneAccounts?
    ensures k < |Ledger(v, trace)| && Ledger(v, trace)[k].tid == t && SampledBy(trace, t, now)
    ensures Pipeline.AccountsSince(Run(v, Serial(v, trace)[..k]).accounts, Run(v, Serial(v, trace)[..k + 1]).accounts,
                                   Retention.Cutoff(now, Exec(v, trace).threads[t].call.retention))
  {
    k := AnsweredCommits(v, trace, t);
    now := Serial(v, trace)[k].now;
    RunPrefix(v, EMPTY, Serial(v, trace), k);
  }

  // ---- keypackages: the prune schedule ----

  /** Every keypackage prune that was started uses this window and this cap, as one process's prunes do. */
  ghost predicate OneSetting(trace: seq<Step>, retention: u64, cap: u64) {
    forall k :: 0 <= k < |trace| && trace[k].Start? && trace[k].call.CallPruneKeyPackages? ==>
      trace[k].call == CallPruneKeyPackages(cap, retention)
  }

  lemma HistoryFixed(v: Rules, trace: seq<Step>, retention: u64, cap: u64)
    requires Possible(v, trace) && OneSetting(trace, retention, cap)
    ensures Schedule.Fixed(Serial(v, trace), retention, cap)
    ensures 1 <= cap < TWO63 ==> Schedule.PositiveCaps(Serial(v, trace))
  {
    var es := Serial(v, trace);
    forall i | 0 <= i < |es|
      ensures es[i].action.ExpireKeyPackages? ==> es[i].action.retention == retention
      ensures es[i].action.CapKeyPackages? ==> es[i].action.cap == cap
    {
      var c := EntryStarted(v, trace, i);
    }
  }

  predicate TouchesKeyPackages(a: Action) {
    a.Insert? || Schedule.PrunesKeyPackages(a)
  }

  /** Nothing but `t` itself commits to the keypackages once `t` has begun to. */
  ghost predicate LastOnKeyPackages(ledger: seq<Entry>, t: Tid) {
    forall j, k :: 0 <= j < k < |ledger| && ledger[j].tid == t && TouchesKeyPackages(ledger[k].event.action) ==>
      ledger[k].tid == t
  }

  /** Events that leave the keypackages alone can be cut off the end. */
  lemma {:induction false} QuietTail(v: Rules, es: seq<Event>, n: nat)
    requires n <= |es| && forall k :: n <= k < |es| ==> !TouchesKeyPackages(es[k].action)
    ensures Run(v, es).keypackages == Run(v, es[..n]).keypackages
    ensures Run(v, Schedule.WithoutPrunes(es)).keypackages == Run(v, Schedule.WithoutPrunes(es[..n])).keypackages
    decreases |es|
  {
    if n == |es| {
      assert es[..n] == es;
    } else {
      var before, e := es[..|es| - 1], es[|es| - 1];
      QuietTail(v, before, n);
      assert before[..n] == es[..n];
      RunSnoc(v, EMPTY, Schedule.WithoutPrunes(before), e);
    }
  }

  lemma WithoutLastPrune(es: seq<Event>, now: u64, retention: u64, cap: u64)
    ensures Schedule.WithoutPrunes(es + Schedule.PruneEvents(now, retention, cap)) == Schedule.WithoutPrunes(es)
  {
    var x, y := Schedule.PruneEvents(now, retention, cap)[0], Schedule.PruneEvents(now, retention, cap)[1];
    assert (es + Schedule.PruneEvents(now, retention, cap))[..|es| + 1] == es + [x];
    assert (es + [x])[..|es|] == es;
  }

  /** The reply an insert got is the answer in the history with every prune taken out. */
  ghost predicate UnprunedReply(v: Rules, ledger: seq<Entry>, t: Tid, c: Call, o: Outcome) {
    exists i :: 0 <= i < |ledger| && ledger[i].tid == t && ledger[i].event.action == LastAction(c)
      && Answer(v, Run(v, Schedule.WithoutPrunes(Events(ledger[..i]))), ledger[i].event) == o
  }

  ghost predicate AllUnpruned(v: Rules, ledger: seq<Entry>, threads: map<Tid, Thread>) {
    forall u :: u in threads && threads[u].call.CallInsert? && Answered(threads[u].phase) ==>
      UnprunedReply(v, ledger, u, threads[u].call, threads[u].phase.outcome)
  }

  /** Whenever prunes run, and for whatever windows, an insert's reply does not show it. */
  lemma InsertRepliesIgnorePrunes(v: Rules, trace: seq<Step>)
    requires Possible(v, trace) && SteadyClock(trace) && Schedule.PositiveCaps(Serial(v, trace))
    ensures AllUnpruned(v, Ledger(v, trace), Exec(v, trace).threads)
  {
    var ledger, threads := Ledger(v, trace), Exec(v, trace).threads;
    HistoryClocked(v, trace);
    forall u | u in threads && threads[u].call.CallInsert? && Answered(threads[u].phase)
      ensures UnprunedReply(v, ledger, u, threads[u].call, threads[u].phase.outcome)
    {
      var i := ReplyPlace(v, trace, u);
      EventsPrefix(ledger, i);
      Schedule.InsertAnswersIgnorePrunes(v, Events(ledger), i);
    }
  }

  /**
   Once a keypackage prune has been answered and nothing else has committed to the keypackages since, the table is
   what that one prune makes of all the inserts, however many prunes ran before it and whenever they did; and every
   insert was answered as if none had run, unless the cap is one that empties the table.
   */
  lemma EarlierPrunesInvisible(v: Rules, trace: seq<Step>, t: Tid, retention: u64, cap: u64) returns (i: nat)
    requires Possible(v, trace) && SteadyClock(trace) && OneSetting(trace, retention, cap)
    requires t in Exec(v, trace).threads && Answered(Exec(v, trace).threads[t].phase)
    requires Exec(v, trace).threads[t].call == CallPruneKeyPackages(cap, retention)
    requires LastOnKeyPackages(Ledger(v, trace), t)
    ensures PairAt(Ledger(v, trace), i, t, CallPruneKeyPackages(cap, retention))
    ensures var now := Serial(v, trace)[i].now;
            Exec(v, trace).db.keypackages ==
            Run(v, Schedule.WithoutPrunes(Serial(v, trace)) + Schedule.PruneEvents(now, retention, cap)).keypackages
    ensures 1 <= cap < TWO63 ==> AllUnpruned(v, Ledger(v, trace), Exec(v, trace).threads)
  {
    var ledger, es := Ledger(v, trace), Serial(v, trace);
    PrunesCommitPairs(v, trace);
    assert Paired(ledger, t, Exec(v, trace).threads[t]);
    i :| PairAt(ledger, i, t, CallPruneKeyPackages(cap, retention));
    HistoryFixed(v, trace, retention, cap);
    HistoryClocked(v, trace);
    RefinesSerial(v, trace);
    QuietAfterPair(v, trace, i, t, retention, cap);
    TableAfterPair(v, es, i, es[i].now, retention, cap);
    if 1 <= cap < TWO63 {
      InsertRepliesIgnorePrunes(v, trace);
    }
  }

  lemma QuietAfterPair(v: Rules, trace: seq<Step>, i: nat, t: Tid, retention: u64, cap: u64)
    requires Possible(v, trace) && t in Exec(v, trace).threads
    requires PairAt(Ledger(v, trace), i, t, CallPruneKeyPackages(cap, retention))
    requires LastOnKeyPackages(Ledger(v, trace), t)
    ensures i + 2 <= |Serial(v, trace)|
    ensures Serial(v, trace)[i..i + 2] == Schedule.PruneEvents(Serial(v, trace)[i].now, retention, cap)
    ensures forall k :: i + 2 <= k < |Serial(v, trace)| ==> !TouchesKeyPackages(Serial(v, trace)[k].action)
  {
    var ledger := Ledger(v, trace);
    CommitsOnce(v, trace);
    assert Accounted(ledger, t, Exec(v, trace).threads[t]);
    forall k | i + 2 <= k < |ledger|
      ensures !TouchesKeyPackages(ledger[k].event.action)
    {
      assert ledger[i + 1].event.action.CapKeyPackages?;
    }
  }

  lemma TableAfterPair(v: Rules, es: seq<Event>, i: nat, now: u64, retention: u64, cap: u64)
    requires Clocked(es) && Schedule.Fixed(es, retention, cap)
    requires i + 2 <= |es| && es[i..i + 2] == Schedule.PruneEvents(now, retention, cap)
    requires forall k :: i + 2 <= k < |es| ==> !TouchesKeyPackages(es[k].action)
    ensures Run(v, es).keypackages ==
            Run(v, Schedule.WithoutPrunes(es) + Schedule.PruneEvents(now, retention, cap)).keypackages
  {
    var head, pair := es[..i], Schedule.PruneEvents(now, retention, cap);
    HeadOfPair(es, i, now, retention, cap);
    QuietTail(v, es, i + 2);
    WithoutLastPrune(head, now, retention, cap);
    Schedule.FixedSettingsUnobservable(v, head, now, retention, cap);
    SamePruned(v, Schedule.WithoutPrunes(head), Schedule.WithoutPrunes(es), now, retention, cap);
  }

  lemma HeadOfPair(es: seq<Event>, i: nat, now: u64, retention: u64, cap: u64)
    requires Clocked(es) && Schedule.Fixed(es, retention, cap)
    requires i + 2 <= |es| && es[i..i + 2] == Schedule.PruneEvents(now, retention, cap)
    ensures es[..i + 2] == es[..i] + Schedule.PruneEvents(now, retention, cap)
    ensures Clocked(es[..i + 2]) && Schedule.Fixed(es[..i], retention, cap)
  {
  }

  lemma SamePruned(v: Rules, xs: seq<Event>, ys: seq<Event>, now: u64, retention: u64, cap: u64)
    requires Run(v, xs).keypackages == Run(v, ys).keypackages
    ensures Run(v, xs + Schedule.PruneEvents(now, retention, cap)).keypackages ==
            Run(v, ys + Schedule.PruneEvents(now, retention, cap)).keypackages
  {
    Schedule.RunPrune(v, EMPTY, xs, now, retention, cap);
    Schedule.RunPrune(v, EMPTY, ys, now, retention, cap);
  }

  /** Under a steady clock any reader's `latest` is the register of the events committed so far. */
  lemma LatestReadsRegister(v: Rules, trace: seq<Step>, device: string)
    requires Possible(v, trace) && SteadyClock(trace)
    ensures Latest(Exec(v, trace).db.keypackages, device) ==
            match Schedule.Register(Serial(v, trace), device) case None => None case Some(c) => Some(c.bundle)
  {
    RefinesSerial(v, trace);
    HistoryClocked(v, trace);
    Schedule.LatestIsRegister(v, Serial(v, trace), device);
  }

  // ---- the service's own calls ----

  /** The call is a prune, or what the pipeline hands to the store for some request. */
  ghost predicate FromPipeline(v: Rules, c: Call) {
    || c.CallPruneAccounts? || c.CallPruneKeyPackages?
    || exists r :: Pipeline.Admit(v, r) == Ok(LastAction(c))
  }

  /** Every call of the execution is one the service makes. */
  ghost predicate Served(v: Rules, trace: seq<Step>) {
    forall k :: 0 <= k < |trace| && trace[k].Start? ==> FromPipeline(v, trace[k].call)
  }

  /** The history of the service's calls, in any interleaving, is one of admitted events. */
  lemma HistoryAdmitted(v: Rules, trace: seq<Step>)
    requires Possible(v, trace) && Served(v, trace)
    ensures Reachable.AllAdmitted(v, Serial(v, trace))
    ensures Accounts.HonestLamports(Serial(v, trace)) && Logs.Verified(v, Serial(v, trace))
  {
    var es := Serial(v, trace);
    forall i | 0 <= i < |es|
      ensures Reachable.Admitted(v, es[i])
    {
      var c := EntryStarted(v, trace, i);
      var k :| 0 <= k < |trace| && trace[k] == Start(Ledger(v, trace)[i].tid, c);
      assert FromPipeline(v, c);
      if !c.CallPruneAccounts? && !c.CallPruneKeyPackages? {
        var r :| Pipeline.Admit(v, r) == Ok(LastAction(c));
        Pipeline.AdmitsOnlyVerified(v, es[i].now, r);
      }
    }
  }

  /** At every instant, between any two steps of any threads, every row a reader can see verifies under its own key. */
  lemma ReadersSeeGenuineRows(v: Rules, trace: seq<Step>)
    requires Possible(v, trace) && Served(v, trace)
    ensures Reachable.Genuine(v, Exec(v, trace).db)
  {
    RefinesSerial(v, trace);
    HistoryAdmitted(v, trace);
    Reachable.GenuineRun(v, EMPTY, Serial(v, trace));
  }

  // ---- account bundles ----

  /** The v0 row any reader sees is the earliest of maximal lamport committed since the row was last deleted. */
  lemma AccountReadIsWinner(v: Rules, trace: seq<Step>, a: string) returns (i: nat)
    requires Possible(v, trace) && Served(v, trace)
    ensures Accounts.Window(v, Serial(v, trace), a, i)
    ensures i == 0 || Accounts.DeletedAt(v, Serial(v, trace), a, i - 1)
    ensures a in Exec(v, trace).db.accounts <==> Accounts.SubmittedSince(Serial(v, trace), a, i)
    ensures forall w: nat :: Accounts.Wins(Serial(v, trace), a, i, w) ==>
              Lookup(Exec(v, trace).db.accounts, a) == Some(Accounts.RowOf(Serial(v, trace)[w]))
  {
    RefinesSerial(v, trace);
    HistoryAdmitted(v, trace);
    i := Accounts.CurrentWindow(v, Serial(v, trace), a);
    Accounts.StoredIsWinner(v, Serial(v, trace), a, i);
  }

  /** A v0 publish was refused exactly when one of at least its lamport had been committed in the window before it. */
  lemma UpsertReplyExact(v: Rules, trace: seq<Step>, t: Tid) returns (k: nat, i: nat)
    requires Possible(v, trace) && Served(v, trace) && t in Exec(v, trace).threads
    requires Exec(v, trace).threads[t].call.CallUpsert? && Answered(Exec(v, trace).threads[t].phase)
    ensures var c := Exec(v, trace).threads[t].call;
            && k < |Ledger(v, trace)| && Ledger(v, trace)[k].tid == t && Serial(v, trace)[k].action == LastAction(c)
            && Accounts.Window(v, Serial(v, trace)[..k], c.account, i)
            && (Exec(v, trace).threads[t].phase.outcome == Applied(false) <==>
                exists j :: i <= j < k && Accounts.Submits(Serial(v, trace)[j], c.account)
                  && Serial(v, trace)[j].action.lamport >= c.lamport)
  {
    HistoryAdmitted(v, trace);
    k := ReplyPlace(v, trace, t);
    i := RefusedAt(v, Serial(v, trace), k);
  }

  lemma RefusedAt(v: Rules, es: seq<Event>, k: nat) returns (i: nat)
    requires Accounts.HonestLamports(es) && k < |es| && es[k].action.Upsert?
    ensures Accounts.Window(v, es[..k], es[k].action.account, i)
    ensures Answer(v, Run(v, es[..k]), es[k]) == Applied(false)
            <==> exists j :: i <= j < k && Accounts.Submits(es[j], es[k].action.account)
                   && es[j].action.lamport >= es[k].action.lamport
  {
    var before, a := es[..k], es[k].action;
    assert Accounts.HonestLamports(before);
    i := Accounts.CurrentWindow(v, before, a.account);
    Accounts.RefusedIff(v, before, a.account, i, es[k].now, a.lamport, a.payload, a.signature);
  }

  // ---- account logs ----

  /** Any two reads of one account's log, in real-time order, are prefix-ordered, whoever publishes meanwhile. */
  lemma LogReadsOrdered(v: Rules, trace: seq<Step>, p: nat, q: nat, account: string)
    requires Possible(v, trace) && p <= q <= |trace|
    ensures Possible(v, trace[..p]) && Possible(v, trace[..q])
    ensures account in Exec(v, trace[..p]).db.logs ==>
              Logs.Grows(Exec(v, trace[..p]).db, Exec(v, trace[..q]).db, account)
  {
    ReadsCommitted(v, trace, p, q);
    var es := Serial(v, trace);
    var m, n :| 0 <= m <= n <= |es|
      && Exec(v, trace[..p]).db == Run(v, es[..m]) && Exec(v, trace[..q]).db == Run(v, es[..n]);
    if account in Run(v, es[..m]).logs {
      Logs.PrefixChain(v, es, account, m, n);
    }
  }

  /** A v1 publish was answered "fork" exactly when its log is not a prefix of the one now stored. */
  lemma LogReplyDecided(v: Rules, trace: seq<Step>, t: Tid)
    requires Possible(v, trace) && Served(v, trace) && t in Exec(v, trace).threads
    requires Exec(v, trace).threads[t].call.CallPutLog? && Answered(Exec(v, trace).threads[t].phase)
    ensures var c := Exec(v, trace).threads[t].call.candidate;
            && Logs.Stored(Exec(v, trace).db, c.Account()).Some?
            && (Exec(v, trace).threads[t].phase.outcome == Compared(Diverged) <==>
                !(c.payload <= Logs.Stored(Exec(v, trace).db, c.Account()).value))
  {
    RefinesSerial(v, trace);
    HistoryAdmitted(v, trace);
    var k := ReplyPlace(v, trace, t);
    Logs.FinalLogDecides(v, Serial(v, trace), Exec(v, trace).threads[t].call.candidate.Account(), k);
  }

  /** Two executions that commit the same logs of one account's history, in any order, end in the same log. */
  lemma LogsConverge(v: Rules, xs: seq<Step>, ys: seq<Step>, account: string, history: Bytes)
    requires Possible(v, xs) && Served(v, xs) && Possible(v, ys) && Served(v, ys)
    requires Logs.Offered(Serial(v, xs), account) == Logs.Offered(Serial(v, ys), account)
    requires forall p :: p in Logs.Offered(Serial(v, xs), account) ==> p <= history
    ensures Logs.Stored(Exec(v, xs).db, account) == Logs.Stored(Exec(v, ys).db, account)
  {
    RefinesSerial(v, xs);
    RefinesSerial(v, ys);
    HistoryAdmitted(v, xs);
    HistoryAdmitted(v, ys);
    Logs.Converges(v, Serial(v, xs), Serial(v, ys), account, history);
  }
}
