/** The prune loop's ticks: what any number of them leaves of the tables. */
module Ticks {
  import opened Basics
  import opened Tables
  import KeyPackages
  import Retention
  import Schedule

  /** The clock readings of one tick: each prune samples its own, under its own hold of the lock. */
  datatype Tick = Tick(forKeyPackages: u64, forAccounts: u64)

  function TickEvents(t: Tick, cap: u64, retention: u64): seq<Event> {
    Schedule.PruneEvents(t.forKeyPackages, retention, cap) + [Event(t.forAccounts, ExpireAccounts(retention))]
  }

  function AllTickEvents(ticks: seq<Tick>, cap: u64, retention: u64): seq<Event>
    decreases |ticks|
  {
    if ticks == [] then []
    else AllTickEvents(ticks[..|ticks| - 1], cap, retention) + TickEvents(ticks[|ticks| - 1], cap, retention)
  }

  lemma TickStep(v: Rules, s: State, ticks: seq<Tick>, cap: u64, retention: u64)
    requires ticks != []
    ensures var n := |ticks| - 1;
            var before := RunFrom(v, s, AllTickEvents(ticks[..n], cap, retention));
            RunFrom(v, s, AllTickEvents(ticks, cap, retention)) ==
            State(
              KeyPackages.Prune(before.keypackages, Retention.Cutoff(ticks[n].forKeyPackages, retention), AsI64(cap)),
              ExpireAccountRows(before.accounts, Retention.Cutoff(ticks[n].forAccounts, retention)),
              before.logs)
  {
    var n := |ticks| - 1;
    var before := RunFrom(v, s, AllTickEvents(ticks[..n], cap, retention));
    var prune := Schedule.PruneEvents(ticks[n].forKeyPackages, retention, cap);
    RunConcat(v, s, AllTickEvents(ticks[..n], cap, retention), TickEvents(ticks[n], cap, retention));
    RunSnoc(v, before, prune, Event(ticks[n].forAccounts, ExpireAccounts(retention)));
    Schedule.RunPrune(v, before, [], ticks[n].forKeyPackages, retention, cap);
    assert [] + prune == prune;
  }

  /** No tick's account cutoff is past this time. */
  ghost predicate OutlivesAccountTicks(at: int, ticks: seq<Tick>, retention: u64) {
    forall i :: 0 <= i < |ticks| ==> at >= Retention.Cutoff(ticks[i].forAccounts, retention)
  }

  ghost predicate OutlivesKeyPackageTicks(at: int, ticks: seq<Tick>, retention: u64) {
    forall i :: 0 <= i < |ticks| ==> at >= Retention.Cutoff(ticks[i].forKeyPackages, retention)
  }

  /** A v0 row outlives the ticks exactly when it outlives each of them; logs are never touched. */
  lemma {:induction false} TicksOnAccounts(v: Rules, s: State, ticks: seq<Tick>, cap: u64, retention: u64)
    ensures var after := RunFrom(v, s, AllTickEvents(ticks, cap, retention));
            && (forall a :: a in after.accounts <==>
                  a in s.accounts && OutlivesAccountTicks(s.accounts[a].updatedAt, ticks, retention))
            && (forall a :: a in after.accounts ==> after.accounts[a] == s.accounts[a])
            && after.logs == s.logs
    decreases |ticks|
  {
    if ticks != [] {
      var n := |ticks| - 1;
      TicksOnAccounts(v, s, ticks[..n], cap, retention);
      TickStep(v, s, ticks, cap, retention);
      forall at: int
        ensures OutlivesAccountTicks(at, ticks, retention) <==>
                OutlivesAccountTicks(at, ticks[..n], retention)
                && at >= Retention.Cutoff(ticks[n].forAccounts, retention)
      {
        assert forall i :: 0 <= i < n ==> ticks[..n][i] == ticks[i];
      }
    }
  }

  /** Any positive number of ticks is one keypackage prune at the latest of their cutoffs. */
  lemma {:induction false} TicksArePrune(v: Rules, s: State, ticks: seq<Tick>, cap: u64, retention: u64)
    returns (latest: int)
    requires ticks != []
    ensures forall at :: at >= latest <==> OutlivesKeyPackageTicks(at, ticks, retention)
    ensures RunFrom(v, s, AllTickEvents(ticks, cap, retention)).keypackages ==
            KeyPackages.Prune(s.keypackages, latest, AsI64(cap))
    decreases |ticks|
  {
    var n := |ticks| - 1;
    var c := Retention.Cutoff(ticks[n].forKeyPackages, retention);
    TickStep(v, s, ticks, cap, retention);
    if n == 0 {
      latest := c;
    } else {
      var l := TicksArePrune(v, s, ticks[..n], cap, retention);
      latest := Max(l, c);
      KeyPackages.PrunesCompose(s.keypackages, l, AsI64(cap), c, AsI64(cap));
      forall at: int
        ensures OutlivesKeyPackageTicks(at, ticks, retention) <==>
                OutlivesKeyPackageTicks(at, ticks[..n], retention) && at >= c
      {
        assert forall i :: 0 <= i < n ==> ticks[..n][i] == ticks[i];
      }
    }
  }

  // ---- in the operator's terms ----

  /** The days are within the limit and the clock below 2^63 milliseconds. */
  ghost predicate InRange(ticks: seq<Tick>, days: u64) {
    && days <= Retention.MAX_DAYS
    && forall i :: 0 <= i < |ticks| ==> ticks[i].forKeyPackages < TWO63 && ticks[i].forAccounts < TWO63
  }

  /** `after` holds the rows of `before` that were within the window of days at every tick, as they were. */
  ghost predicate AccountsInWindow(before: map<string, AccountRow>, after: map<string, AccountRow>, ticks: seq<Tick>,
                                   days: u64) {
    && (forall a :: a in after <==> a in before && forall i :: 0 <= i < |ticks| ==>
          before[a].updatedAt >= Retention.Intended(ticks[i].forAccounts, days))
    && (forall a :: a in after ==> after[a] == before[a])
  }

  /** The same, and of those only rows with fewer than `cap` newer ones of their device: at most `cap` a device. */
  ghost predicate KeyPackagesInWindow(before: History, after: History, ticks: seq<Tick>, cap: u64, days: u64) {
    && (forall id :: id in after <==>
          && id in before && (ticks == [] || |KeyPackages.Newer(before, id)| < cap)
          && forall i :: 0 <= i < |ticks| ==> id.receivedAt >= Retention.Intended(ticks[i].forKeyPackages, days))
    && (forall id :: id in after ==> after[id] == before[id])
    && (ticks != [] ==> forall device :: |Rows(after, device)| <= cap)
  }

  lemma IntendedCutoffs(ticks: seq<Tick>, days: u64)
    requires InRange(ticks, days)
    ensures forall i :: 0 <= i < |ticks| ==>
              && Retention.Cutoff(ticks[i].forAccounts, Retention.Seconds(days)) ==
                 Retention.Intended(ticks[i].forAccounts, days)
              && Retention.Cutoff(ticks[i].forKeyPackages, Retention.Seconds(days)) ==
                 Retention.Intended(ticks[i].forKeyPackages, days)
  {
    forall i | 0 <= i < |ticks|
      ensures Retention.Cutoff(ticks[i].forAccounts, Retention.Seconds(days)) ==
              Retention.Intended(ticks[i].forAccounts, days)
      ensures Retention.Cutoff(ticks[i].forKeyPackages, Retention.Seconds(days)) ==
              Retention.Intended(ticks[i].forKeyPackages, days)
    {
      Retention.CutoffExactIff(ticks[i].forAccounts, days);
      Retention.CutoffExactIff(ticks[i].forKeyPackages, days);
    }
  }

  /** After any number of ticks the tables hold what the operator's two settings ask for. */
  lemma WindowsKept(v: Rules, s: State, ticks: seq<Tick>, cap: u64, days: u64)
    ensures var after := RunFrom(v, s, AllTickEvents(ticks, cap, Retention.Seconds(days)));
            && after.logs == s.logs
            && (InRange(ticks, days) ==> AccountsInWindow(s.accounts, after.accounts, ticks, days))
            && (InRange(ticks, days) && cap < TWO63 ==>
                  KeyPackagesInWindow(s.keypackages, after.keypackages, ticks, cap, days))
  {
    TicksOnAccounts(v, s, ticks, cap, Retention.Seconds(days));
    if InRange(ticks, days) {
      IntendedCutoffs(ticks, days);
      if cap < TWO63 && ticks != [] {
        KeyPackageWindow(v, s, ticks, cap, days);
      }
    }
  }

  lemma KeyPackageWindow(v: Rules, s: State, ticks: seq<Tick>, cap: u64, days: u64)
    requires InRange(ticks, days) && cap < TWO63 && ticks != []
    ensures var after := RunFrom(v, s, AllTickEvents(ticks, cap, Retention.Seconds(days)));
            KeyPackagesInWindow(s.keypackages, after.keypackages, ticks, cap, days)
  {
    var retention := Retention.Seconds(days);
    var latest := TicksArePrune(v, s, ticks, cap, retention);
    var after := KeyPackages.Prune(s.keypackages, latest, cap);
    IntendedCutoffs(ticks, days);
    forall id
      ensures id in after <==>
              id in s.keypackages && |KeyPackages.Newer(s.keypackages, id)| < cap
              && OutlivesKeyPackageTicks(id.receivedAt, ticks, retention)
      ensures id in after ==> after[id] == s.keypackages[id]
    {
      KeyPackages.PruneMember(s.keypackages, latest, cap, id);
    }
    forall device
      ensures |Rows(after, device)| <= cap
    {
      KeyPackages.CapKeepsNewest(Expire(s.keypackages, latest), cap, device, {});
    }
  }

  /** Up to the limit on days, both age deletes keep exactly the rows inside the window the operator asked for. */
  lemma WindowKeptExactly(v: Rules, s: State, now: u64, days: u64)
    requires now < TWO63 && days <= Retention.MAX_DAYS
    ensures forall a :: a in Next(v, s, Event(now, ExpireAccounts(Retention.Seconds(days)))).accounts <==>
              a in s.accounts && s.accounts[a].updatedAt >= Retention.Intended(now, days)
    ensures forall id :: id in Next(v, s, Event(now, ExpireKeyPackages(Retention.Seconds(days)))).keypackages <==>
              id in s.keypackages && id.receivedAt >= Retention.Intended(now, days)
  {
    Retention.CutoffExactIff(now, days);
  }
}
