/** The store as an object, and the code that calls it: publish, fetch, delivery ingestion and the prune loop. */
module Server {
  import opened Basics
  import opened Tables
  import opened Pipeline
  import opened Delivery
  import opened Ticks
  import Header
  import Hex
  import KeyPackages
  import Logs
  import Reachable
  import Retention
  import Schedule

  predicate IsNewest(t: History, device: string, id: RowId) {
    id in Rows(t, device) && forall other :: other in Rows(t, device) ==> other.receivedAt <= id.receivedAt
  }

  /** No log on file disappears or changes but by a strict extension. */
  ghost predicate LogsGrow(s: State, t: State) {
    forall a :: a in s.logs ==> Logs.Grows(s, t, a)
  }

  lemma LogsOnlyGrow(v: Rules, s: State, e: Event)
    ensures Reachable.Genuine(v, s) ==> LogsGrow(s, Next(v, s, e))
  {
    if Reachable.Genuine(v, s) {
      forall a | a in s.logs
        ensures Logs.Grows(s, Next(v, s, e), a)
      {
        assert forall b :: b in s.logs ==> Reachable.GenuineLog(v, b, s.logs[b].signedLog);
        Logs.LogStep(v, s, e, a);
      }
    }
  }

  /** No publish makes a store invalid. */
  lemma ServeKeepsValid(v: Rules, s: State, now: u64, r: Request)
    ensures Reachable.Genuine(v, s) ==> Reachable.Genuine(v, Serve(v, s, now, r).0)
  {
    if Reachable.Genuine(v, s) {
      GenuineAfter(v, s, now, r);
    }
  }

  lemma PruneEffect(v: Rules, s: State, now: u64, retention: u64, cap: u64)
    ensures var t := KeyPackages.Prune(s.keypackages, Retention.Cutoff(now, retention), AsI64(cap));
            && RunFrom(v, s, Schedule.PruneEvents(now, retention, cap)) == s.(keypackages := t)
            && NewestSince(s.keypackages, t, Retention.Cutoff(now, retention), AsI64(cap))
            && (Reachable.Genuine(v, s) ==> Reachable.Genuine(v, s.(keypackages := t)))
  {
    var events := Schedule.PruneEvents(now, retention, cap);
    Schedule.RunPrune(v, s, [], now, retention, cap);
    assert [] + events == events;
    PruneIsNewestSince(s.keypackages, Retention.Cutoff(now, retention), AsI64(cap));
    if Reachable.Genuine(v, s) {
      Reachable.GenuineRun(v, s, events);
    }
  }

  class Store {
    const rules: Rules
    var keypackages: History
    var accountBundles: map<string, AccountRow>
    var accountLogs: map<string, LogRow>

    ghost function View(): State
      reads this
    {
      State(keypackages, accountBundles, accountLogs)
    }

    /** Every row verifies under its own key; what the publish calls, the ingest loop and the prunes keep. */
    ghost predicate Valid()
      reads this
    {
      Reachable.Genuine(rules, View())
    }

    constructor (rules: Rules)
      ensures this.rules == rules && View() == EMPTY && Valid()
    {
      this.rules := rules;
      keypackages, accountBundles, accountLogs := map[], map[], map[];
    }

    /** False when the primary key refuses the row. */
    method Insert(now: u64, device: string, bundle: KeyPackage) returns (ok: bool)
      modifies this
      ensures View() == Next(rules, old(View()), Event(now, Tables.Insert(device, bundle)))
      ensures Answer(rules, old(View()), Event(now, Tables.Insert(device, bundle))) ==
              if ok then Inserted else DuplicateKey
      ensures ok <==> RowId(device, AsI64(now)) !in old(keypackages)
      ensures keypackages == if ok then old(keypackages)[RowId(device, AsI64(now)) := bundle] else old(keypackages)
      ensures accountBundles == old(accountBundles) && accountLogs == old(accountLogs)
    {
      var id := RowId(device, AsI64(now));
      if id in keypackages { return false; }
      keypackages := keypackages[id := bundle];
      return true;
    }

    method FetchLatest(device: string) returns (r: Option<KeyPackage>)
      ensures r.None? <==> Rows(keypackages, device) == {}
      ensures r.Some? ==> exists id :: IsNewest(keypackages, device, id) && r.value == keypackages[id]
      ensures Valid() && r.Some? ==> Reachable.GenuineBundle(rules, device, r.value)
    {
      r := Latest(keypackages, device);
      assert r.Some? ==> IsNewest(keypackages, device, Newest(keypackages, device).value);
    }

    /** Compare-and-swap on the lamport; false when the submission is stale. */
    method UpsertAccount(now: u64, account: string, lamport: u64, payload: Bytes, signature: Bytes)
      returns (applied: bool)
      modifies this
      ensures View() == Next(rules, old(View()), Event(now, Upsert(account, lamport, payload, signature)))
      ensures Answer(rules, old(View()), Event(now, Upsert(account, lamport, payload, signature))) == Applied(applied)
      ensures !applied ==> View() == old(View())
      ensures !applied <==> account in old(accountBundles) &&
                            exists stored :: lamport <= stored &&
                              Header.PayloadLamport(old(accountBundles)[account].payload) == Some(stored)
      ensures applied ==> accountBundles == old(accountBundles)[account := AccountRow(payload, signature, AsI64(now))]
      ensures keypackages == old(keypackages) && accountLogs == old(accountLogs)
    {
      var existing: Option<u64> := None;
      if account in accountBundles {
        existing := Header.PayloadLamport(accountBundles[account].payload);
      }
      if existing.Some? && lamport <= existing.value { return false; }
      accountBundles := accountBundles[account := AccountRow(payload, signature, AsI64(now))];
      return true;
    }

    method GetAccount(account: string) returns (r: Option<AccountRow>)
      ensures r == Lookup(View().accounts, account)
      ensures Valid() && r.Some? ==> Reachable.GenuineAccount(rules, account, r.value)
    {
      if account in accountBundles { return Some(accountBundles[account]); }
      return None;
    }

    /** Replaces the stored log only by a strict extension of it. */
    method PutAccountLog(now: u64, candidate: AccountRecord) returns (verdict: Verdict)
      modifies this
      ensures View() == Next(rules, old(View()), Event(now, PutLog(candidate)))
      ensures Answer(rules, old(View()), Event(now, PutLog(candidate))) == Compared(verdict)
      ensures verdict != Updated ==> View() == old(View())
      ensures old(Valid()) ==> LogsGrow(old(View()), View())
      ensures verdict == Updated ==>
                accountLogs == old(accountLogs)[candidate.Account() := LogRow(candidate.ToBytes(), AsI64(now))]
      ensures candidate.Account() !in old(accountLogs) ==> verdict == Updated
      ensures keypackages == old(keypackages) && accountBundles == old(accountBundles)
    {
      LogsOnlyGrow(rules, View(), Event(now, PutLog(candidate)));
      var account := candidate.Account();
      if account !in accountLogs {
        verdict := Updated;
      } else {
        var stored := SplitSigned(accountLogs[account].signedLog);
        if stored.None? { return Corrupt; }
        var (signature, payload) := stored.value;
        if !Authentic(rules, candidate.addr, signature, payload) { return Corrupt; }
        if !Authentic(rules, candidate.addr, candidate.signature, candidate.payload) { return Rejected; }
        verdict := Relate(payload, candidate.payload);
      }
      if verdict == Updated {
        accountLogs := accountLogs[account := LogRow(candidate.ToBytes(), AsI64(now))];
      }
    }

    method GetAccountLog(addr: Key) returns (r: Option<Bytes>)
      ensures r == match Lookup(View().logs, Hex.Encode(addr)) case Some(row) => Some(row.signedLog) case None => None
      ensures Valid() && r.Some? ==> Reachable.GenuineLog(rules, Hex.Encode(addr), r.value)
    {
      if Hex.Encode(addr) in accountLogs { return Some(accountLogs[Hex.Encode(addr)].signedLog); }
      return None;
    }

    method PruneAccounts(now: u64, retention: u64)
      modifies this
      ensures View() == Next(rules, old(View()), Event(now, ExpireAccounts(retention)))
      ensures AccountsSince(old(accountBundles), accountBundles, Retention.Cutoff(now, retention))
      ensures keypackages == old(keypackages) && accountLogs == old(accountLogs)
      ensures old(Valid()) ==> Valid()
    {
      var cutoff := Retention.Cutoff(now, retention);
      accountBundles := map a | a in accountBundles && accountBundles[a].updatedAt >= cutoff :: accountBundles[a];
    }

    method PruneKeyPackages(now: u64, cap: u64, retention: u64)
      modifies this
      ensures View() == RunFrom(rules, old(View()), Schedule.PruneEvents(now, retention, cap))
      ensures NewestSince(old(keypackages), keypackages, Retention.Cutoff(now, retention), AsI64(cap))
      ensures accountBundles == old(accountBundles) && accountLogs == old(accountLogs)
      ensures old(Valid()) ==> Valid()
    {
      var cutoff := Retention.Cutoff(now, retention);
      keypackages := map id | id in keypackages && id.receivedAt >= cutoff :: keypackages[id];
      var survivors := keypackages;
      keypackages := map id | id in survivors && RowNumber(survivors, id) <= AsI64(cap) :: survivors[id];
      assert survivors == Expire(old(keypackages), cutoff);
      assert keypackages == Cap(survivors, AsI64(cap));
      PruneEffect(rules, old(View()), now, retention, cap);
    }
  }

  // ---- publishing ----

  method ApplyKeyPackage(store: Store, now: u64, bundle: Bundle) returns (r: Result<(), BundleError>)
    modifies store
    ensures (store.View(), r) == Serve(store.rules, old(store.View()), now, DeliverKeyPackage(Raws(bundle)))
    ensures old(store.Valid()) ==> store.Valid()
  {
    ServeKeepsValid(store.rules, store.View(), now, DeliverKeyPackage(Raws(bundle)));
    var checked := Verify(store.rules, bundle);
    if checked.Err? { return checked; }
    var ok := store.Insert(now, bundle.KeyHex(), KeyPackage(bundle.payload, bundle.signature));
    return if ok then Ok(()) else Err(Internal);
  }

  method ApplyAccount(store: Store, now: u64, bundle: Bundle) returns (r: Result<(), BundleError>)
    modifies store
    ensures (store.View(), r) == Serve(store.rules, old(store.View()), now, DeliverAccount(Raws(bundle)))
    ensures old(store.Valid()) ==> store.Valid()
    ensures r != Err(Internal)
  {
    ServeKeepsValid(store.rules, store.View(), now, DeliverAccount(Raws(bundle)));
    var checked := Verify(store.rules, bundle);
    if checked.Err? { return checked; }
    var lamport := Header.PayloadLamport(bundle.payload);
    if lamport.None? { return Err(Invalid(NoLamport)); }
    var applied := store.UpsertAccount(now, bundle.KeyHex(), lamport.value, bundle.payload, bundle.signature);
    return if applied then Ok(()) else Err(Stale);
  }

  method ApplyAccountLog(store: Store, now: u64, c: AccountRecord) returns (r: Result<(), BundleError>)
    modifies store
    ensures match AdmitLog(store.rules, c)
            case Err(e) => store.View() == old(store.View()) && r == Err(e)
            case Ok(action) =>
              && store.View() == Next(store.rules, old(store.View()), Event(now, action))
              && r == Conclude(Answer(store.rules, old(store.View()), Event(now, action)))
    ensures old(store.Valid()) ==> store.Valid() && r != Err(Internal) && LogsGrow(old(store.View()), store.View())
    ensures old(store.Valid()) && store.rules.validKey(c.addr) ==>
              LogRepliedWith(store.rules, old(store.View()), c.Account(), c.ToBytes(), r)
  {
    if store.Valid() && store.rules.validKey(c.addr) {
      RecordReply(store.rules, store.View(), now, c);
    }
    ghost var e := Event(now, PutLog(c));
    if store.Valid() && AdmitLog(store.rules, c).Ok? {
      Reachable.GenuineStep(store.rules, store.View(), e);
      Reachable.DefensiveBranchesDead(store.rules, store.View(), e);
    }
    LogsOnlyGrow(store.rules, store.View(), e);
    if !store.rules.verifies(c.addr, c.payload, c.signature) { return Err(Invalid(SignatureFails)); }
    if !store.rules.decodesLog(c.payload) { return Err(MalformedLog); }
    var verdict := store.PutAccountLog(now, c);
    match verdict {
      case Updated => return Ok(());
      case Identical => return Ok(());
      case Behind => return Err(Stale);
      case Diverged => return Err(Forked);
      case _ => return Err(Internal);
    }
  }

  /** A record with a valid key, told what a POST of the same log would be told. */
  lemma RecordReply(v: Rules, s: State, now: u64, c: AccountRecord)
    requires Reachable.Genuine(v, s) && v.validKey(c.addr)
    ensures Admit(v, PostLog(c.Account(), c.ToBytes())) == AdmitLog(v, c)
    ensures LogRepliedWith(v, s, c.Account(), c.ToBytes(), Serve(v, s, now, PostLog(c.Account(), c.ToBytes())).1)
  {
    ParseAddrIff(v, c.Account(), c.addr);
    Logs.SplitOfRecord(c);
    LogReply(v, s, now, c.Account(), c.ToBytes());
  }

  function Raws(b: Bundle): Fields {
    Fields(b.key, b.payload, b.signature)
  }

  method SubmitKeyPackage(store: Store, now: u64, text: Text) returns (r: Result<(), BundleError>)
    modifies store
    ensures (store.View(), r) == Serve(store.rules, old(store.View()), now, PostKeyPackage(text))
    ensures old(store.Valid()) ==> store.Valid()
  {
    ServeKeepsValid(store.rules, store.View(), now, PostKeyPackage(text));
    var bundle := DecodeBundle(text);
    if bundle.Err? { return Err(bundle.error); }
    r := ApplyKeyPackage(store, now, bundle.value);
  }

  method SubmitAccount(store: Store, now: u64, text: Text) returns (r: Result<(), BundleError>)
    modifies store
    ensures (store.View(), r) == Serve(store.rules, old(store.View()), now, PostAccount(text))
    ensures old(store.Valid()) ==> store.Valid()
    ensures StatusOf(r) in {204, 400, 409}
  {
    ServeKeepsValid(store.rules, store.View(), now, PostAccount(text));
    ServeAccountText(store.rules, store.View(), now, text);
    var fields := DecodeText(text);
    if fields.Err? { return Err(fields.error); }
    var bundle := FromBytes(fields.value);
    if bundle.Err? {
      ServeBadFields(store.rules, store.View(), now, fields.value);
      return Err(bundle.error);
    }
    r := ApplyAccount(store, now, bundle.value);
  }

  method SubmitAccountLog(store: Store, now: u64, addr: string, body: Bytes) returns (r: Result<(), BundleError>)
    modifies store
    ensures (store.View(), r) == Serve(store.rules, old(store.View()), now, PostLog(addr, body))
    ensures old(store.Valid()) ==> store.Valid()
    ensures old(store.Valid()) ==> StatusOf(r) in {204, 400, 409} && LogsGrow(old(store.View()), store.View())
    ensures old(store.Valid()) ==> LogRepliedWith(store.rules, old(store.View()), addr, body, r)
  {
    if store.Valid() {
      LogReply(store.rules, store.View(), now, addr, body);
    }
    ServeKeepsValid(store.rules, store.View(), now, PostLog(addr, body));
    var record := DecodeLog(store.rules, addr, body);
    if record.Err? { return Err(record.error); }
    r := ApplyAccountLog(store, now, record.value);
  }

  // ---- delivery ----

  /** One delivered submission, decoded off the protobuf wire. */
  method Ingest(store: Store, now: u64, request: Request) returns (r: Result<(), BundleError>)
    requires request.DeliverKeyPackage? || request.DeliverAccount?
    modifies store
    ensures (store.View(), r) == Serve(store.rules, old(store.View()), now, request)
    ensures old(store.Valid()) ==> store.Valid()
  {
    ServeKeepsValid(store.rules, store.View(), now, request);
    var bundle := FromBytes(request.fields);
    if bundle.Err? { return Err(bundle.error); }
    if request.DeliverKeyPackage? {
      r := ApplyKeyPackage(store, now, bundle.value);
    } else {
      r := ApplyAccount(store, now, bundle.value);
    }
  }

  /** The ingest thread: drains the queue in order, each item through the same pipeline as a POST. */
  method IngestAll(store: Store, wire: Wire, queue: seq<Received>, clock: nat -> u64)
    modifies store
    ensures store.View() ==
            RunFrom(store.rules, old(store.View()), AllEvents(store.rules, Deliveries(wire, queue, clock)))
    ensures KeyPackagesFrom(store.rules, old(store.keypackages), store.keypackages, wire, queue, clock)
    ensures AccountsFrom(store.rules, old(store.accountBundles), store.accountBundles, wire, queue, clock)
    ensures store.accountLogs == old(store.accountLogs)
    ensures old(store.Valid()) ==> store.Valid()
  {
    var i := 0;
    while i < |queue|
      invariant i <= |queue|
      invariant store.View() ==
                RunFrom(store.rules, old(store.View()), AllEvents(store.rules, Deliveries(wire, queue[..i], clock)))
      invariant old(store.Valid()) ==> store.Valid()
    {
      var request := Parse(wire, queue[i]);
      ghost var sofar := Deliveries(wire, queue[..i], clock);
      if request.Some? {
        var _ := Ingest(store, clock(i), request.value);
        ServiceStep(store.rules, old(store.View()), sofar, Arrival(clock(i), Publish(request.value)));
      }
      assert queue[..i + 1][..i] == queue[..i];
      i := i + 1;
    }
    assert queue[..i] == queue;
    Drained(store.rules, old(store.View()), wire, queue, clock);
  }

  // ---- the prune loop ----

  method PruneLoop(store: Store, ticks: seq<Tick>, cap: u64, days: u64)
    modifies store
    ensures store.View() == RunFrom(store.rules, old(store.View()), AllTickEvents(ticks, cap, Retention.Seconds(days)))
    ensures InRange(ticks, days) ==> AccountsInWindow(old(store.accountBundles), store.accountBundles, ticks, days)
    ensures InRange(ticks, days) && cap < TWO63 ==>
              KeyPackagesInWindow(old(store.keypackages), store.keypackages, ticks, cap, days)
    ensures store.accountLogs == old(store.accountLogs)
    ensures old(store.Valid()) ==> store.Valid()
  {
    var retention := Retention.Seconds(days);
    var i := 0;
    while i < |ticks|
      invariant i <= |ticks|
      invariant store.View() == RunFrom(store.rules, old(store.View()), AllTickEvents(ticks[..i], cap, retention))
      invariant old(store.Valid()) ==> store.Valid()
    {
      ghost var start := store.View();
      store.PruneKeyPackages(ticks[i].forKeyPackages, cap, retention);
      store.PruneAccounts(ticks[i].forAccounts, retention);
      RunSnoc(store.rules, start, Schedule.PruneEvents(ticks[i].forKeyPackages, retention, cap),
              Event(ticks[i].forAccounts, ExpireAccounts(retention)));
      RunConcat(store.rules, old(store.View()), AllTickEvents(ticks[..i], cap, retention),
                TickEvents(ticks[i], cap, retention));
      assert ticks[..i + 1][..i] == ticks[..i];
      i := i + 1;
    }
    assert ticks[..i] == ticks;
    WindowsKept(store.rules, old(store.View()), ticks, cap, days);
  }
}
