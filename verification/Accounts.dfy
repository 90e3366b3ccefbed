/** The v0 account table over whole histories of submissions and prunes. */
module Accounts {
  import opened Basics
  import opened Tables
  import Header
  import Retention

  predicate Submits(e: Event, a: string) {
    e.action.Upsert? && e.action.account == a
  }

  /** The caller passes the lamport it read from the payload itself. */
  predicate HonestLamports(es: seq<Event>) {
    forall i :: 0 <= i < |es| && es[i].action.Upsert? ==>
      Header.PayloadLamport(es[i].action.payload) == Some(es[i].action.lamport)
  }

  function RowOf(e: Event): AccountRow
    requires e.action.Upsert?
  {
    AccountRow(e.action.payload, e.action.signature, AsI64(e.now))
  }

  ghost predicate DeletedAt(v: Rules, es: seq<Event>, a: string, j: nat)
    requires j < |es|
  {
    a in Run(v, es[..j]).accounts && a !in Run(v, es[..j + 1]).accounts
  }

  /** The row is absent after `i` events and is not deleted again: `i` opens the account's current window. */
  ghost predicate Window(v: Rules, es: seq<Event>, a: string, i: nat) {
    && i <= |es|
    && a !in Run(v, es[..i]).accounts
    && forall j :: i <= j < |es| ==> !DeletedAt(v, es, a, j)
  }

  /** The earliest submission of maximal lamport since `i`. */
  predicate Wins(es: seq<Event>, a: string, i: nat, w: nat) {
    && i <= w < |es| && Submits(es[w], a)
    && (forall j :: i <= j < |es| && Submits(es[j], a) ==> es[j].action.lamport <= es[w].action.lamport)
    && (forall j :: i <= j < w && Submits(es[j], a) ==> es[j].action.lamport < es[w].action.lamport)
  }

  ghost predicate SubmittedSince(es: seq<Event>, a: string, i: nat) {
    exists j :: i <= j < |es| && Submits(es[j], a)
  }

  /** Only an account prune deletes a row, and only one whose cutoff has passed the row's own clock. */
  lemma OnlyPrunesDelete(v: Rules, es: seq<Event>, a: string, j: nat)
    requires j < |es|
    ensures DeletedAt(v, es, a, j) <==>
            a in Run(v, es[..j]).accounts && Overtakes(es[j], Run(v, es[..j]).accounts[a].updatedAt)
  {
    RunPrefix(v, EMPTY, es, j);
  }

  lemma WindowShrinks(v: Rules, es: seq<Event>, a: string, i: nat)
    requires Window(v, es, a, i) && i < |es|
    ensures Window(v, es[..|es| - 1], a, i)
  {
    var before := es[..|es| - 1];
    assert before[..i] == es[..i];
    forall j | i <= j < |before|
      ensures !DeletedAt(v, before, a, j)
    {
      assert before[..j] == es[..j] && before[..j + 1] == es[..j + 1];
      assert !DeletedAt(v, es, a, j);
    }
  }

  /** Every history has a current window: it opens at the start or right after the last deletion of the row. */
  lemma {:induction false} CurrentWindow(v: Rules, es: seq<Event>, a: string) returns (i: nat)
    ensures Window(v, es, a, i)
    ensures i == 0 || DeletedAt(v, es, a, i - 1)
    decreases |es|
  {
    if es == [] {
      i := 0;
    } else {
      var n := |es| - 1;
      var before := es[..n];
      assert before[..n] == before;
      assert es[..n + 1] == es;
      if DeletedAt(v, es, a, n) {
        i := n + 1;
      } else {
        i := CurrentWindow(v, before, a);
        assert before[..i] == es[..i];
        if i > 0 { assert before[..i - 1] == es[..i - 1]; }
        forall j | i <= j < |es|
          ensures !DeletedAt(v, es, a, j)
        {
          if j < n {
            assert before[..j] == es[..j] && before[..j + 1] == es[..j + 1];
            assert !DeletedAt(v, before, a, j);
          }
        }
      }
    }
  }

  /** An account prune that takes a row with this time stamp. */
  predicate Overtakes(e: Event, updatedAt: int) {
    e.action.ExpireAccounts? && updatedAt < Retention.Cutoff(e.now, e.action.retention)
  }

  /** One event's effect on a row whose lamport is `l`: a higher lamport replaces it, a late enough prune deletes it. */
  lemma RowStep(v: Rules, s: State, e: Event, a: string, l: u64)
    requires a in s.accounts && Header.PayloadLamport(s.accounts[a].payload) == Some(l)
    ensures Lookup(Next(v, s, e).accounts, a) ==
            if Submits(e, a) && e.action.lamport > l then Some(RowOf(e))
            else if Overtakes(e, s.accounts[a].updatedAt) then None
            else Some(s.accounts[a])
  {
  }

  lemma AbsentStep(v: Rules, s: State, e: Event, a: string)
    requires a !in s.accounts
    ensures Lookup(Next(v, s, e).accounts, a) == if Submits(e, a) then Some(RowOf(e)) else None
  {
  }

  lemma {:induction false} WinnerStored(v: Rules, es: seq<Event>, a: string, i: nat) returns (w: Option<nat>)
    requires HonestLamports(es) && Window(v, es, a, i)
    ensures w.None? ==> !SubmittedSince(es, a, i) && a !in Run(v, es).accounts
    ensures w.Some? ==> Wins(es, a, i, w.value) && Lookup(Run(v, es).accounts, a) == Some(RowOf(es[w.value]))
    decreases |es|
  {
    if i == |es| {
      assert es[..i] == es;
      w := None;
    } else {
      var n := |es| - 1;
      var before, e := es[..n], es[n];
      assert forall j :: 0 <= j < n ==> before[j] == es[j];
      WindowShrinks(v, es, a, i);
      var winner := WinnerStored(v, before, a, i);
      assert !DeletedAt(v, es, a, n);
      assert es[..n + 1] == es;
      w := NextWinner(es, a, i, winner);
      if winner.Some? {
        RowStep(v, Run(v, before), e, a, es[winner.value].action.lamport);
      } else {
        AbsentStep(v, Run(v, before), e, a);
      }
    }
  }

  /** How the last event changes who wins. */
  lemma NextWinner(es: seq<Event>, a: string, i: nat, old_: Option<nat>) returns (w: Option<nat>)
    requires i < |es|
    requires old_.None? ==> !SubmittedSince(es[..|es| - 1], a, i)
    requires old_.Some? ==> Wins(es[..|es| - 1], a, i, old_.value)
    ensures w.None? ==> !SubmittedSince(es, a, i) && old_.None? && !Submits(es[|es| - 1], a)
    ensures w.Some? ==> Wins(es, a, i, w.value)
    ensures var e := es[|es| - 1];
            w == if Submits(e, a) && (old_.Some? ==> e.action.lamport > es[old_.value].action.lamport)
                 then Some(|es| - 1) else old_
  {
    var n := |es| - 1;
    var before := es[..n];
    assert forall j :: 0 <= j < n ==> before[j] == es[j];
    w := old_;
    if Submits(es[n], a) && (old_.Some? ==> es[n].action.lamport > es[old_.value].action.lamport) {
      w := Some(n);
      if old_.None? {
        forall j | i <= j < n ensures !Submits(es[j], a) { assert !Submits(before[j], a); }
      }
    } else if old_.None? {
      forall j | i <= j < |es| ensures !Submits(es[j], a) { if j < n { assert !Submits(before[j], a); } }
    }
  }

  lemma WinsUnique(es: seq<Event>, a: string, i: nat, w: nat, u: nat)
    requires Wins(es, a, i, w) && Wins(es, a, i, u)
    ensures w == u
  {
  }

  /**
   The stored row is the earliest submission of maximal lamport in the window, stamped with the time of that
   submission; there is a row exactly when the window holds a submission.
   */
  lemma StoredIsWinner(v: Rules, es: seq<Event>, a: string, i: nat)
    requires HonestLamports(es) && Window(v, es, a, i)
    ensures a in Run(v, es).accounts <==> SubmittedSince(es, a, i)
    ensures a in Run(v, es).accounts ==> exists w: nat :: Wins(es, a, i, w)
    ensures forall w: nat :: Wins(es, a, i, w) ==> Lookup(Run(v, es).accounts, a) == Some(RowOf(es[w]))
  {
    var best := WinnerStored(v, es, a, i);
    forall w: nat | Wins(es, a, i, w)
      ensures Lookup(Run(v, es).accounts, a) == Some(RowOf(es[w]))
    {
      assert SubmittedSince(es, a, i);
      WinsUnique(es, a, i, w, best.value);
    }
  }

  /**
   The replay guard, exactly: a submission is refused precisely when one of at least its lamport was made since
   the row was last deleted. Nothing survives the deletion, so older submissions are then accepted again.
   */
  lemma RefusedIff(v: Rules, es: seq<Event>, a: string, i: nat, now: u64, lamport: u64, payload: Bytes, sig: Bytes)
    requires HonestLamports(es) && Window(v, es, a, i)
    ensures Answer(v, Run(v, es), Event(now, Upsert(a, lamport, payload, sig))) == Applied(false)
            <==> exists j :: i <= j < |es| && Submits(es[j], a) && es[j].action.lamport >= lamport
  {
    var best := WinnerStored(v, es, a, i);
    if best.Some? {
      var w := best.value;
      assert Fresh(Some(RowOf(es[w])), lamport) <==> lamport > es[w].action.lamport;
    }
  }

  /** The payload and signature of every submission of the window. */
  ghost function Submitted(es: seq<Event>, a: string, i: nat): set<(Bytes, Bytes)> {
    set j | i <= j < |es| && Submits(es[j], a) :: (es[j].action.payload, es[j].action.signature)
  }

  ghost predicate LamportsDiffer(s: set<(Bytes, Bytes)>) {
    forall x, y :: x in s && y in s && Header.PayloadLamport(x.0) == Header.PayloadLamport(y.0) ==> x == y
  }

  /** When no two submissions of the window share a lamport, neither their order nor their repetition matters. */
  lemma OrderIrrelevant(v: Rules, es: seq<Event>, i: nat, fs: seq<Event>, k: nat, a: string)
    requires HonestLamports(es) && Window(v, es, a, i)
    requires HonestLamports(fs) && Window(v, fs, a, k)
    requires Submitted(es, a, i) == Submitted(fs, a, k)
    requires LamportsDiffer(Submitted(es, a, i))
    ensures a in Run(v, es).accounts <==> a in Run(v, fs).accounts
    ensures a in Run(v, es).accounts ==>
              && Run(v, es).accounts[a].payload == Run(v, fs).accounts[a].payload
              && Run(v, es).accounts[a].signature == Run(v, fs).accounts[a].signature
  {
    var w := WinnerStored(v, es, a, i);
    var u := WinnerStored(v, fs, a, k);
    SubmittedNonempty(es, a, i);
    SubmittedNonempty(fs, a, k);
    if w.Some? {
      var x := SubmissionAt(es, a, i, w.value);
      var y := SubmissionAt(fs, a, k, u.value);
      BestOfAll(es, a, i, w.value, y);
      BestOfAll(fs, a, k, u.value, x);
      assert x == y;
    }
  }

  /** The winner's lamport is at least that of anything submitted. */
  lemma BestOfAll(es: seq<Event>, a: string, i: nat, w: nat, x: (Bytes, Bytes))
    requires HonestLamports(es) && Wins(es, a, i, w) && x in Submitted(es, a, i)
    ensures Header.PayloadLamport(x.0).Some?
    ensures Header.PayloadLamport(es[w].action.payload).Some?
    ensures Header.PayloadLamport(x.0).value <= Header.PayloadLamport(es[w].action.payload).value
  {
  }

  lemma SubmissionAt(es: seq<Event>, a: string, i: nat, j: nat) returns (x: (Bytes, Bytes))
    requires i <= j < |es| && Submits(es[j], a)
    ensures x == (es[j].action.payload, es[j].action.signature) && x in Submitted(es, a, i)
  {
    x := (es[j].action.payload, es[j].action.signature);
  }

  lemma SubmittedNonempty(es: seq<Event>, a: string, i: nat)
    ensures Submitted(es, a, i) != {} <==> SubmittedSince(es, a, i)
  {
    if j :| i <= j < |es| && Submits(es[j], a) {
      assert (es[j].action.payload, es[j].action.signature) in Submitted(es, a, i);
    }
  }

  /**
   The retention clock: while no higher lamport arrives, a row outlives every prune whose cutoff has not passed
   its `updated_at` and falls to the first one whose cutoff has, however many replays come in between.
   */
  lemma {:induction false} RetentionClock(v: Rules, es: seq<Event>, a: string, i: nat, j: nat, l: u64)
    requires i <= j <= |es| && a in Run(v, es[..i]).accounts
    requires Header.PayloadLamport(Run(v, es[..i]).accounts[a].payload) == Some(l)
    requires forall k :: i <= k < j && Submits(es[k], a) ==> es[k].action.lamport <= l
    requires forall k :: i <= k < j ==> !Overtakes(es[k], Run(v, es[..i]).accounts[a].updatedAt)
    ensures Lookup(Run(v, es[..j]).accounts, a) == Some(Run(v, es[..i]).accounts[a])
    ensures j < |es| && es[j].action.ExpireAccounts? ==>
              (DeletedAt(v, es, a, j) <==> Overtakes(es[j], Run(v, es[..i]).accounts[a].updatedAt))
    decreases j
  {
    if i < j {
      RetentionClock(v, es, a, i, j - 1, l);
      RunPrefix(v, EMPTY, es, j - 1);
      RowStep(v, Run(v, es[..j - 1]), es[j - 1], a, l);
    }
    if j < |es| {
      OnlyPrunesDelete(v, es, a, j);
    }
  }
}
