/** The v1 account-log table over whole histories: append-only, never pruned. */
module Logs {
  import opened Basics
  import opened Tables
  import Hex

  /** The payload part of the log stored for an account. */
  function Stored(s: State, account: string): Option<Bytes> {
    if account in s.logs && |s.logs[account].signedLog| >= 64 then Some(s.logs[account].signedLog[64..]) else None
  }

  predicate Offers(e: Event, account: string) {
    e.action.PutLog? && e.action.candidate.Account() == account
  }

  ghost predicate WellSplit(s: State) {
    forall a :: a in s.logs ==> |s.logs[a].signedLog| >= 64
  }

  lemma SplitOfRecord(c: AccountRecord)
    ensures SplitSigned(c.ToBytes()) == Some((c.signature, c.payload))
  {
  }

  /** From `s` to `t` the account's row stays as it is, its time included, or its payload is strictly extended. */
  ghost predicate Grows(s: State, t: State, account: string) {
    && Stored(s, account).Some? && Stored(t, account).Some?
    && (t.logs[account] == s.logs[account] || Stored(s, account).value < Stored(t, account).value)
  }

  lemma GrowsTransitive(s: State, t: State, u: State, account: string)
    requires Grows(s, t, account) && Grows(t, u, account)
    ensures Grows(s, u, account)
  {
  }

  lemma LogStep(v: Rules, s: State, e: Event, account: string)
    requires WellSplit(s)
    ensures WellSplit(Next(v, s, e))
    ensures account in s.logs ==> Grows(s, Next(v, s, e), account)
    ensures account !in s.logs && account in Next(v, s, e).logs ==>
              Offers(e, account) && Stored(Next(v, s, e), account) == Some(e.action.candidate.payload)
  {
  }

  lemma {:induction false} RunWellSplit(v: Rules, es: seq<Event>)
    ensures WellSplit(Run(v, es))
    decreases |es|
  {
    if es != [] {
      RunWellSplit(v, es[..|es| - 1]);
      LogStep(v, Run(v, es[..|es| - 1]), es[|es| - 1], "");
    }
  }

  /**
   Successive stored logs form a strict prefix chain and the row is never deleted: what is stored later is the
   same row or a strict extension of it, across every submission and every prune.
   */
  lemma {:induction false} PrefixChain(v: Rules, es: seq<Event>, account: string, i: nat, j: nat)
    requires i <= j <= |es| && account in Run(v, es[..i]).logs
    ensures Grows(Run(v, es[..i]), Run(v, es[..j]), account)
    decreases j
  {
    if i == j {
      RunWellSplit(v, es[..i]);
    } else {
      PrefixChain(v, es, account, i, j - 1);
      RunWellSplit(v, es[..j - 1]);
      RunPrefix(v, EMPTY, es, j - 1);
      LogStep(v, Run(v, es[..j - 1]), es[j - 1], account);
      GrowsTransitive(Run(v, es[..i]), Run(v, es[..j - 1]), Run(v, es[..j]), account);
    }
  }

  // ---- answers, once every candidate has been verified ----

  /** The verified records are the only ones a publish hands to the store. */
  ghost predicate Verified(v: Rules, es: seq<Event>) {
    forall i :: 0 <= i < |es| && es[i].action.PutLog? ==> Admissible(v, es[i].action.candidate)
  }

  predicate Admissible(v: Rules, c: AccountRecord) {
    Authentic(v, c.addr, c.signature, c.payload)
  }

  /** A stored log is, byte for byte and stamp for stamp, one of the submissions. */
  ghost predicate From(e: Event, account: string, row: LogRow) {
    Offers(e, account) && row == LogRow(e.action.candidate.ToBytes(), AsI64(e.now))
  }

  lemma {:induction false} StoredWasSubmitted(v: Rules, es: seq<Event>, account: string)
    requires account in Run(v, es).logs
    ensures exists i :: 0 <= i < |es| && From(es[i], account, Run(v, es).logs[account])
    decreases |es|
  {
    var n := |es| - 1;
    var before := es[..n];
    if account in Run(v, before).logs && Run(v, before).logs[account] == Run(v, es).logs[account] {
      StoredWasSubmitted(v, before, account);
      var i :| 0 <= i < |before| && From(before[i], account, Run(v, before).logs[account]);
      assert From(es[i], account, Run(v, es).logs[account]);
    } else {
      assert From(es[n], account, Run(v, es).logs[account]);
    }
  }

  /**
   With verified submissions the stored log always re-verifies, so the answer is the documented comparison and
   the "no longer verifies" and "unexpected outcome" branches are never taken.
   */
  lemma AnswerIsComparison(v: Rules, es: seq<Event>, c: AccountRecord)
    requires Verified(v, es) && Admissible(v, c)
    ensures Judge(v, Lookup(Run(v, es).logs, c.Account()), c) ==
            match Stored(Run(v, es), c.Account()) case None => Updated case Some(p) => Relate(p, c.payload)
  {
    var account := c.Account();
    RunWellSplit(v, es);
    if account in Run(v, es).logs {
      StoredWasSubmitted(v, es, account);
      var i :| 0 <= i < |es| && From(es[i], account, Run(v, es).logs[account]);
      Hex.EncodeInjective(es[i].action.candidate.addr, c.addr);
      SplitOfRecord(es[i].action.candidate);
    }
  }

  function AnswerAt(v: Rules, es: seq<Event>, i: nat, c: AccountRecord): Verdict
    requires i <= |es|
  {
    Judge(v, Lookup(Run(v, es[..i]).logs, c.Account()), c)
  }

  /**
   Refusals are permanent: forked stays forked, stale stays stale, and what was already stored can only
   be found identical or stale from then on.
   */
  lemma RefusalsPermanent(v: Rules, es: seq<Event>, c: AccountRecord, i: nat, j: nat)
    requires Verified(v, es) && Admissible(v, c) && i <= j <= |es|
    ensures AnswerAt(v, es, i, c) in {Updated, Identical, Behind, Diverged}
    ensures AnswerAt(v, es, i, c) == Diverged ==> AnswerAt(v, es, j, c) == Diverged
    ensures AnswerAt(v, es, i, c) == Behind ==> AnswerAt(v, es, j, c) == Behind
    ensures AnswerAt(v, es, i, c) == Identical ==> AnswerAt(v, es, j, c) in {Identical, Behind}
    ensures i < j && es[i].action == PutLog(c) && AnswerAt(v, es, i, c) == Updated ==>
              AnswerAt(v, es, j, c) in {Identical, Behind}
  {
    AnswerIsComparison(v, es[..i], c);
    AnswerIsComparison(v, es[..j], c);
    if c.Account() in Run(v, es[..i]).logs {
      PrefixChain(v, es, c.Account(), i, j);
      Monotone(Stored(Run(v, es[..i]), c.Account()).value, Stored(Run(v, es[..j]), c.Account()).value, c.payload);
    }
    if i < j && es[i].action == PutLog(c) && AnswerAt(v, es, i, c) == Updated {
      RunPrefix(v, EMPTY, es, i);
      SplitOfRecord(c);
      PrefixChain(v, es, c.Account(), i + 1, j);
    }
  }

  /** How a comparison can change when the stored side grows. */
  lemma Monotone(stored: Bytes, later: Bytes, c: Bytes)
    requires stored <= later
    ensures Relate(stored, c) == Diverged ==> Relate(later, c) == Diverged
    ensures Relate(stored, c) == Behind ==> Relate(later, c) == Behind
    ensures Relate(stored, c) == Identical ==> Relate(later, c) in {Identical, Behind}
  {
  }

  /**
   The final log decides every answer after the fact: a submission is called a fork exactly when it is not a
   prefix of the log stored in the end, and that log is itself a submission.
   */
  lemma FinalLogDecides(v: Rules, es: seq<Event>, account: string, i: nat)
    requires Verified(v, es) && i < |es| && Offers(es[i], account)
    ensures Stored(Run(v, es), account).Some?
    ensures AnswerAt(v, es, i, es[i].action.candidate) == Diverged
            <==> !(es[i].action.candidate.payload <= Stored(Run(v, es), account).value)
    ensures exists k :: 0 <= k < |es| && Offers(es[k], account)
              && es[k].action.candidate.payload == Stored(Run(v, es), account).value
  {
    var c := es[i].action.candidate;
    var n := |es|;
    assert es[..n] == es;
    RunPrefix(v, EMPTY, es, i);
    SplitOfRecord(c);
    AnswerIsComparison(v, es[..i], c);
    RunWellSplit(v, es[..i]);
    PrefixChain(v, es, account, i + 1, n);
    AnswerIsComparison(v, es, c);
    RefusalsPermanent(v, es, c, i, n);
    StoredWasSubmitted(v, es, account);
    var k :| 0 <= k < |es| && From(es[k], account, Run(v, es).logs[account]);
    SplitOfRecord(es[k].action.candidate);
  }

  /** The first submission for an account is accepted and every later stored log extends it, forks or not. */
  lemma FirstAcceptedStays(v: Rules, es: seq<Event>, account: string, i: nat)
    requires i < |es| && Offers(es[i], account) && forall k :: 0 <= k < i ==> !Offers(es[k], account)
    ensures AnswerAt(v, es, i, es[i].action.candidate) == Updated
    ensures Stored(Run(v, es), account).Some? && es[i].action.candidate.payload <= Stored(Run(v, es), account).value
  {
    if account in Run(v, es[..i]).logs {
      StoredWasSubmitted(v, es[..i], account);
    }
    RunPrefix(v, EMPTY, es, i);
    SplitOfRecord(es[i].action.candidate);
    PrefixChain(v, es, account, i + 1, |es|);
    assert es[..|es|] == es;
  }

  /** The payloads submitted for an account. */
  ghost function Offered(es: seq<Event>, account: string): set<Bytes> {
    set i | 0 <= i < |es| && Offers(es[i], account) :: es[i].action.candidate.payload
  }

  ghost predicate Longest(p: Bytes, s: set<Bytes>) {
    p in s && forall q :: q in s ==> q <= p
  }

  /** When every submission is a prefix of one history, the longest wins. */
  lemma LongestWins(v: Rules, es: seq<Event>, account: string, history: Bytes)
    requires Verified(v, es) && Offered(es, account) != {}
    requires forall p :: p in Offered(es, account) ==> p <= history
    ensures Stored(Run(v, es), account).Some? && Longest(Stored(Run(v, es), account).value, Offered(es, account))
  {
    forall p | p in Offered(es, account)
      ensures Stored(Run(v, es), account).Some? && Stored(Run(v, es), account).value in Offered(es, account)
      ensures p <= Stored(Run(v, es), account).value
    {
      var i :| 0 <= i < |es| && Offers(es[i], account) && es[i].action.candidate.payload == p;
      FinalLogDecides(v, es, account, i);
      AnswerIsComparison(v, es[..i], es[i].action.candidate);
      if account in Run(v, es[..i]).logs {
        StoredWasSubmitted(v, es[..i], account);
        var k :| 0 <= k < i && From(es[..i][k], account, Run(v, es[..i]).logs[account]);
        SplitOfRecord(es[k].action.candidate);
        var q := es[k].action.candidate.payload;
        assert q in Offered(es, account);
        PrefixesComparable(p, q, history);
      }
    }
    var p :| p in Offered(es, account);
  }

  lemma PrefixesComparable(p: Bytes, q: Bytes, h: Bytes)
    requires p <= h && q <= h
    ensures p <= q || q <= p
  {
  }

  /** Any order and any repetition of the same submissions converges to the same log. */
  lemma Converges(v: Rules, es: seq<Event>, fs: seq<Event>, account: string, history: Bytes)
    requires Verified(v, es) && Verified(v, fs) && Offered(es, account) == Offered(fs, account)
    requires forall p :: p in Offered(es, account) ==> p <= history
    ensures Stored(Run(v, es), account) == Stored(Run(v, fs), account)
  {
    if Offered(es, account) == {} {
      StoredMeansOffered(v, es, account);
      StoredMeansOffered(v, fs, account);
    } else {
      LongestWins(v, es, account, history);
      LongestWins(v, fs, account, history);
      var p, q := Stored(Run(v, es), account).value, Stored(Run(v, fs), account).value;
      assert p <= q && q <= p;
      assert p == q[..|p|] == q;
    }
  }

  lemma StoredMeansOffered(v: Rules, es: seq<Event>, account: string)
    ensures account in Run(v, es).logs ==> Offered(es, account) != {}
  {
    if account in Run(v, es).logs {
      StoredWasSubmitted(v, es, account);
      var i :| 0 <= i < |es| && From(es[i], account, Run(v, es).logs[account]);
      var p := es[i].action.candidate.payload;
      assert p in Offered(es, account);
    }
  }
}
