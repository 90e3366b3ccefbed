/** Keys never interfere: one key's rows and answers depend only on its own submissions and on the prunes. */
module Projection {
  import opened Basics
  import opened Tables
  import Retention

  /** All that the three tables hold under one key. */
  datatype Slice = Slice(history: History, account: Option<AccountRow>, log: Option<LogRow>)

  function SliceOf(s: State, key: string): Slice {
    Slice(map id | id in s.keypackages && id.device == key :: s.keypackages[id],
          Lookup(s.accounts, key), Lookup(s.logs, key))
  }

  /** Both states hold the same rows under the key, in all three tables. */
  ghost predicate SameUnderKey(s: State, t: State, key: string) {
    && (forall id: RowId :: id.device == key ==> (id in s.keypackages <==> id in t.keypackages))
    && (forall id: RowId :: id.device == key && id in s.keypackages ==> s.keypackages[id] == t.keypackages[id])
    && Lookup(s.accounts, key) == Lookup(t.accounts, key) && Lookup(s.logs, key) == Lookup(t.logs, key)
  }

  lemma SliceIsRows(s: State, t: State, key: string)
    requires SliceOf(s, key) == SliceOf(t, key)
    ensures SameUnderKey(s, t, key)
  {
    forall id: RowId | id.device == key
      ensures id in s.keypackages <==> id in t.keypackages
      ensures id in s.keypackages ==> s.keypackages[id] == t.keypackages[id]
    {
      assert id in SliceOf(s, key).history <==> id in SliceOf(t, key).history;
      assert id in s.keypackages ==> SliceOf(s, key).history[id] == SliceOf(t, key).history[id];
    }
  }

  predicate Concerns(e: Event, key: string) {
    match e.action
    case Insert(device, _) => device == key
    case Upsert(account, _, _, _) => account == key
    case PutLog(c) => c.Account() == key
    case _ => true
  }

  /** The history with every other key's submissions taken out; all prunes stay. */
  function Restrict(es: seq<Event>, key: string): seq<Event>
    decreases |es|
  {
    if es == [] then []
    else
      var rest, e := Restrict(es[..|es| - 1], key), es[|es| - 1];
      if Concerns(e, key) then rest + [e] else rest
  }

  /** Not a submission for another key. */
  predicate OfNoOtherKey(a: Action, key: string) {
    && (a.Insert? ==> a.device == key)
    && (a.Upsert? ==> a.account == key)
    && (a.PutLog? ==> a.candidate.Account() == key)
  }

  /** What is left is the key's own submissions and every prune, in order. */
  lemma {:induction false} RestrictExact(es: seq<Event>, key: string) returns (at: seq<nat>)
    ensures Picks(es, at, Restrict(es, key))
    ensures forall i :: 0 <= i < |es| ==> (i in at <==> OfNoOtherKey(es[i].action, key))
    decreases |es|
  {
    if es == [] {
      at := [];
    } else {
      var n := |es| - 1;
      var rest := RestrictExact(es[..n], key);
      PicksMore(es, rest, Restrict(es[..n], key));
      at := if Concerns(es[n], key) then rest + [n] else rest;
      forall i | 0 <= i < |es|
        ensures i in at <==> OfNoOtherKey(es[i].action, key)
      {
        if i < n { assert es[..n][i] == es[i]; }
      }
    }
  }

  lemma SliceRows(s: State, key: string)
    ensures Rows(s.keypackages, key) == SliceOf(s, key).history.Keys
  {
  }

  lemma ForeignStep(v: Rules, s: State, e: Event, key: string)
    requires !Concerns(e, key)
    ensures SliceOf(Next(v, s, e), key) == SliceOf(s, key)
  {
  }

  lemma CapSlice(t: State, u: State, key: string, k: int)
    requires SliceOf(t, key) == SliceOf(u, key)
    ensures SliceOf(t.(keypackages := Cap(t.keypackages, k)), key) ==
            SliceOf(u.(keypackages := Cap(u.keypackages, k)), key)
  {
    SliceRows(t, key);
    SliceRows(u, key);
    var x := SliceOf(t.(keypackages := Cap(t.keypackages, k)), key).history;
    var y := SliceOf(u.(keypackages := Cap(u.keypackages, k)), key).history;
    forall id
      ensures id in x <==> id in y
      ensures id in x ==> x[id] == y[id]
    {
      assert id in SliceOf(t, key).history <==> id in SliceOf(u, key).history;
      assert id in SliceOf(t, key).history ==> SliceOf(t, key).history[id] == SliceOf(u, key).history[id];
    }
    assert x == y;
  }

  lemma ExpireSlice(t: State, u: State, key: string, c: int)
    requires SliceOf(t, key) == SliceOf(u, key)
    ensures SliceOf(t.(keypackages := Expire(t.keypackages, c)), key) ==
            SliceOf(u.(keypackages := Expire(u.keypackages, c)), key)
  {
    var x := SliceOf(t.(keypackages := Expire(t.keypackages, c)), key).history;
    var y := SliceOf(u.(keypackages := Expire(u.keypackages, c)), key).history;
    forall id
      ensures id in x <==> id in y
      ensures id in x ==> x[id] == y[id]
    {
      assert id in SliceOf(t, key).history <==> id in SliceOf(u, key).history;
      assert id in SliceOf(t, key).history ==> SliceOf(t, key).history[id] == SliceOf(u, key).history[id];
    }
    assert x == y;
  }

  lemma InsertSlice(t: State, u: State, key: string, at: int, row: KeyPackage)
    requires SliceOf(t, key) == SliceOf(u, key)
    ensures RowId(key, at) in t.keypackages <==> RowId(key, at) in u.keypackages
    ensures SliceOf(t.(keypackages := t.keypackages[RowId(key, at) := row]), key) ==
            SliceOf(u.(keypackages := u.keypackages[RowId(key, at) := row]), key)
  {
    var id := RowId(key, at);
    assert id in SliceOf(t, key).history <==> id in SliceOf(u, key).history;
    assert SliceOf(t.(keypackages := t.keypackages[id := row]), key).history == SliceOf(t, key).history[id := row];
    assert SliceOf(u.(keypackages := u.keypackages[id := row]), key).history == SliceOf(u, key).history[id := row];
  }

  /** A change of accounts or logs only is seen in its own part of the slice. */
  lemma AccountSlice(s: State, accounts: map<string, AccountRow>, key: string)
    ensures SliceOf(s.(accounts := accounts), key) == SliceOf(s, key).(account := Lookup(accounts, key))
  {
  }

  lemma LogSlice(s: State, logs: map<string, LogRow>, key: string)
    ensures SliceOf(s.(logs := logs), key) == SliceOf(s, key).(log := Lookup(logs, key))
  {
  }

  lemma UpsertStep(v: Rules, t: State, u: State, e: Event, key: string)
    requires SliceOf(t, key) == SliceOf(u, key) && e.action.Upsert? && e.action.account == key
    ensures SliceOf(Next(v, t, e), key) == SliceOf(Next(v, u, e), key)
  {
    var row := AccountRow(e.action.payload, e.action.signature, AsI64(e.now));
    AccountSlice(t, t.accounts[key := row], key);
    AccountSlice(u, u.accounts[key := row], key);
  }

  lemma PutLogStep(v: Rules, t: State, u: State, e: Event, key: string)
    requires SliceOf(t, key) == SliceOf(u, key) && e.action.PutLog? && e.action.candidate.Account() == key
    ensures SliceOf(Next(v, t, e), key) == SliceOf(Next(v, u, e), key)
  {
    var row := LogRow(e.action.candidate.ToBytes(), AsI64(e.now));
    LogSlice(t, t.logs[key := row], key);
    LogSlice(u, u.logs[key := row], key);
  }

  lemma ExpireAccountsStep(v: Rules, t: State, u: State, e: Event, key: string)
    requires SliceOf(t, key) == SliceOf(u, key) && e.action.ExpireAccounts?
    ensures SliceOf(Next(v, t, e), key) == SliceOf(Next(v, u, e), key)
  {
    var c := Retention.Cutoff(e.now, e.action.retention);
    AccountSlice(t, ExpireAccountRows(t.accounts, c), key);
    AccountSlice(u, ExpireAccountRows(u.accounts, c), key);
  }

  /** Two states that agree on a key still agree on it after any event that concerns it. */
  lemma OwnStep(v: Rules, t: State, u: State, e: Event, key: string)
    requires SliceOf(t, key) == SliceOf(u, key) && Concerns(e, key)
    ensures SliceOf(Next(v, t, e), key) == SliceOf(Next(v, u, e), key)
  {
    match e.action
    case Insert(_, bundle) => InsertSlice(t, u, key, AsI64(e.now), bundle);
    case Upsert(_, _, _, _) => UpsertStep(v, t, u, e, key);
    case PutLog(_) => PutLogStep(v, t, u, e, key);
    case ExpireAccounts(_) => ExpireAccountsStep(v, t, u, e, key);
    case ExpireKeyPackages(retention) => ExpireSlice(t, u, key, Retention.Cutoff(e.now, retention));
    case CapKeyPackages(cap) => CapSlice(t, u, key, AsI64(cap));
  }

  lemma OwnAnswer(v: Rules, t: State, u: State, e: Event, key: string)
    requires SliceOf(t, key) == SliceOf(u, key) && Concerns(e, key)
    ensures Answer(v, t, e) == Answer(v, u, e)
  {
    if e.action.Insert? {
      InsertSlice(t, u, key, AsI64(e.now), e.action.bundle);
    }
  }

  /** One key's rows, and the answers to its own events, are those of the history restricted to that key. */
  lemma {:induction false} KeysIndependent(v: Rules, es: seq<Event>, key: string)
    ensures SliceOf(Run(v, es), key) == SliceOf(Run(v, Restrict(es, key)), key)
    ensures SameUnderKey(Run(v, es), Run(v, Restrict(es, key)), key)
    ensures forall i :: 0 <= i < |es| && Concerns(es[i], key) ==>
              Answer(v, Run(v, es[..i]), es[i]) == Answer(v, Run(v, Restrict(es[..i], key)), es[i])
    decreases |es|
  {
    if es != [] {
      var n := |es| - 1;
      var before, e := es[..n], es[n];
      KeysIndependent(v, before, key);
      if Concerns(e, key) {
        RunSnoc(v, EMPTY, Restrict(before, key), e);
        OwnStep(v, Run(v, before), Run(v, Restrict(before, key)), e, key);
        OwnAnswer(v, Run(v, before), Run(v, Restrict(before, key)), e, key);
      } else {
        ForeignStep(v, Run(v, before), e, key);
      }
      forall i | 0 <= i < |es| && Concerns(es[i], key)
        ensures Answer(v, Run(v, es[..i]), es[i]) == Answer(v, Run(v, Restrict(es[..i], key)), es[i])
      {
        if i < n {
          assert before[i] == es[i] && before[..i] == es[..i];
        }
      }
    }
    SliceIsRows(Run(v, es), Run(v, Restrict(es, key)), key);
  }
}
