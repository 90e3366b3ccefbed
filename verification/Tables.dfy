/**
 The three tables and the atomic actions on them. One `Event` is one SQL mutation (or one read-then-write
 transaction) together with the clock reading it used; `Run` is a serial history.
 */
module Tables {
  import opened Basics
  import Hex
  import Header
  import Retention

  /** What the store takes from code outside the repository, each a fixed but arbitrary function. */
  datatype Rules = Rules(
    validKey: Bytes -> bool,                     // the bytes are an Ed25519 verifying key
    verifies: (Bytes, Bytes, Bytes) -> bool,     // key, payload, signature: section 5.1.7 of RFC 8032
    decodesLog: Bytes -> bool                    // the payload is a well-formed account log
  )

  /** Primary key of `keypackages`. */
  datatype RowId = RowId(device: string, receivedAt: int)
  datatype KeyPackage = KeyPackage(payload: Bytes, signature: Bytes)
  type History = map<RowId, KeyPackage>

  datatype AccountRow = AccountRow(payload: Bytes, signature: Bytes, updatedAt: int)
  datatype LogRow = LogRow(signedLog: Bytes, updatedAt: int)

  datatype State = State(keypackages: History, accounts: map<string, AccountRow>, logs: map<string, LogRow>)

  const EMPTY := State(map[], map[], map[])

  /** A signed account log and the address it claims. */
  datatype AccountRecord = AccountRecord(addr: Key, signature: Signature, payload: Bytes) {
    function Account(): string { Hex.Encode(addr) }

    /** `signature || payload`, the form in which a log travels and is stored. */
    function ToBytes(): Bytes { signature + payload }
  }

  datatype Action =
    | Insert(device: string, bundle: KeyPackage)
    | Upsert(account: string, lamport: u64, payload: Bytes, signature: Bytes)
    | PutLog(candidate: AccountRecord)
    | ExpireAccounts(retention: u64)
    | ExpireKeyPackages(retention: u64)
    | CapKeyPackages(cap: u64)

  datatype Event = Event(now: u64, action: Action)

  datatype Verdict = Updated | Identical | Behind | Diverged | Rejected | Corrupt

  datatype Outcome =
    | Inserted | DuplicateKey
    | Applied(stored: bool)
    | Compared(verdict: Verdict)
    | Deleted

  function Lookup<V>(m: map<string, V>, k: string): Option<V> {
    if k in m then Some(m[k]) else None
  }

  // ---- keypackages ----

  function Rows(t: History, device: string): set<RowId> {
    set id | id in t && id.device == device
  }

  function Above(s: set<RowId>, id: RowId): set<RowId> {
    set other | other in s && other.receivedAt > id.receivedAt
  }

  /** `ROW_NUMBER() OVER (PARTITION BY device_id ORDER BY received_at DESC)`; the primary key rules out ties. */
  function RowNumber(t: History, id: RowId): nat {
    |Above(Rows(t, id.device), id)| + 1
  }

  function Expire(t: History, cutoff: int): History {
    map id | id in t && !(id.receivedAt < cutoff) :: t[id]
  }

  function Cap(t: History, limit: int): History {
    map id | id in t && !(RowNumber(t, id) > limit) :: t[id]
  }

  /** `ORDER BY received_at DESC LIMIT 1`: the row no other row of the device is above. */
  function Newest(t: History, device: string): (r: Option<RowId>)
    ensures r.Some? ==> r.value in Rows(t, device)
    ensures r.Some? ==> forall id :: id in Rows(t, device) ==> id.receivedAt <= r.value.receivedAt
    ensures r.None? <==> Rows(t, device) == {}
  {
    NewestExists(Rows(t, device));
    if Rows(t, device) == {} then None
    else
      var id :| id in Rows(t, device) && forall other :: other in Rows(t, device) ==> other.receivedAt <= id.receivedAt;
      Some(id)
  }

  lemma NewestExists(s: set<RowId>)
    ensures s != {} ==> exists id :: id in s && forall other :: other in s ==> other.receivedAt <= id.receivedAt
  {
    if s != {} {
      var x :| x in s;
      var rest := s - {x};
      if rest != {} {
        NewestExists(rest);
        var m :| m in rest && forall other :: other in rest ==> other.receivedAt <= m.receivedAt;
        var top := if m.receivedAt < x.receivedAt then x else m;
        assert forall other :: other in s ==> other in rest || other == x;
        assert top in s && forall other :: other in s ==> other.receivedAt <= top.receivedAt;
      } else {
        assert s == {x};
      }
    }
  }

  function Latest(t: History, device: string): Option<KeyPackage> {
    match Newest(t, device)
    case None => None
    case Some(id) => Some(t[id])
  }

  // ---- account bundles ----

  /** Whether the compare-and-swap goes through, given the row its transaction read. */
  predicate Fresh(seen: Option<AccountRow>, lamport: u64) {
    match seen
    case None => true
    case Some(row) =>
      match Header.PayloadLamport(row.payload)
      case None => true
      case Some(stored) => lamport > stored
  }

  function ExpireAccountRows(t: map<string, AccountRow>, cutoff: int): map<string, AccountRow> {
    map a | a in t && !(t[a].updatedAt < cutoff) :: t[a]
  }

  // ---- account logs ----

  /** `SignedAccountLog::from_bytes`: 64 bytes of signature, the rest is the payload. */
  function SplitSigned(b: Bytes): Option<(Signature, Bytes)> {
    if |b| < 64 then None else Some((b[..64], b[64..]))
  }

  predicate Authentic(v: Rules, addr: Bytes, signature: Bytes, payload: Bytes) {
    v.verifies(addr, payload, signature) && v.decodesLog(payload)
  }

  /** The account-log rule on two payloads: only a strict extension is newer. */
  function Relate(stored: Bytes, candidate: Bytes): Verdict {
    if candidate == stored then Identical
    else if stored < candidate then Updated
    else if candidate < stored then Behind
    else Diverged
  }

  /** What `put_account_log` decides, given the row its transaction read. */
  function Judge(v: Rules, seen: Option<LogRow>, c: AccountRecord): Verdict {
    match seen
    case None => Updated
    case Some(row) =>
      match SplitSigned(row.signedLog)
      case None => Corrupt
      case Some((signature, payload)) =>
        if !Authentic(v, c.addr, signature, payload) then Corrupt
        else if !Authentic(v, c.addr, c.signature, c.payload) then Rejected
        else Relate(payload, c.payload)
  }

  // ---- one action ----

  function Next(v: Rules, s: State, e: Event): State {
    var at := AsI64(e.now);
    match e.action
    case Insert(device, bundle) =>
      var id := RowId(device, at);
      if id in s.keypackages then s else s.(keypackages := s.keypackages[id := bundle])
    case Upsert(account, lamport, payload, signature) =>
      if Fresh(Lookup(s.accounts, account), lamport)
      then s.(accounts := s.accounts[account := AccountRow(payload, signature, at)]) else s
    case PutLog(c) =>
      if Judge(v, Lookup(s.logs, c.Account()), c) == Updated
      then s.(logs := s.logs[c.Account() := LogRow(c.ToBytes(), at)]) else s
    case ExpireAccounts(retention) =>
      s.(accounts := ExpireAccountRows(s.accounts, Retention.Cutoff(e.now, retention)))
    case ExpireKeyPackages(retention) =>
      s.(keypackages := Expire(s.keypackages, Retention.Cutoff(e.now, retention)))
    case CapKeyPackages(cap) =>
      s.(keypackages := Cap(s.keypackages, AsI64(cap)))
  }

  function Answer(v: Rules, s: State, e: Event): Outcome {
    match e.action
    case Insert(device, _) => if RowId(device, AsI64(e.now)) in s.keypackages then DuplicateKey else Inserted
    case Upsert(account, lamport, _, _) => Applied(Fresh(Lookup(s.accounts, account), lamport))
    case PutLog(c) => Compared(Judge(v, Lookup(s.logs, c.Account()), c))
    case _ => Deleted
  }

  // ---- histories ----

  function RunFrom(v: Rules, s: State, es: seq<Event>): State
    decreases |es|
  {
    if es == [] then s else Next(v, RunFrom(v, s, es[..|es| - 1]), es[|es| - 1])
  }

  /** The tables after a serial history that starts from the empty database. */
  function Run(v: Rules, es: seq<Event>): State {
    RunFrom(v, EMPTY, es)
  }

  lemma RunSnoc(v: Rules, s: State, es: seq<Event>, e: Event)
    ensures RunFrom(v, s, es + [e]) == Next(v, RunFrom(v, s, es), e)
  {
  }

  lemma RunPrefix(v: Rules, s: State, es: seq<Event>, i: nat)
    requires i < |es|
    ensures RunFrom(v, s, es[..i + 1]) == Next(v, RunFrom(v, s, es[..i]), es[i])
  {
    assert es[..i + 1] == es[..i] + [es[i]];
    RunSnoc(v, s, es[..i], es[i]);
  }

  lemma {:induction false} RunConcat(v: Rules, s: State, xs: seq<Event>, ys: seq<Event>)
    ensures RunFrom(v, s, xs + ys) == RunFrom(v, RunFrom(v, s, xs), ys)
    decreases |ys|
  {
    if ys == [] {
      assert xs + ys == xs;
    } else {
      var n := |ys| - 1;
      RunConcat(v, s, xs, ys[..n]);
      assert xs + ys == (xs + ys[..n]) + [ys[n]];
      RunSnoc(v, s, xs + ys[..n], ys[n]);
    }
  }

  /** `kept` is `es` at the positions `at`, in order. */
  ghost predicate Picks(es: seq<Event>, at: seq<nat>, kept: seq<Event>) {
    && |at| == |kept|
    && (forall j, k :: 0 <= j < k < |at| ==> at[j] < at[k])
    && (forall j :: 0 <= j < |at| ==> at[j] < |es| && kept[j] == es[at[j]])
  }

  /** One event more can be picked or passed over. */
  lemma PicksMore(es: seq<Event>, at: seq<nat>, kept: seq<Event>)
    requires es != [] && Picks(es[..|es| - 1], at, kept)
    ensures Picks(es, at, kept) && Picks(es, at + [|es| - 1], kept + [es[|es| - 1]])
    ensures forall i :: i in at ==> i < |es| - 1
  {
  }

  /** The clock readings of a history never go back and stay below 2^63. */
  predicate Clocked(es: seq<Event>) {
    && (forall i :: 0 <= i < |es| ==> es[i].now < TWO63)
    && (forall i, j :: 0 <= i <= j < |es| ==> es[i].now <= es[j].now)
  }
}
