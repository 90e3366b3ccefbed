/** From logos-delivery to the service: which messages are taken, who decodes them, and what draining the queue does. */
module Delivery {
  import opened Basics
  import opened Tables
  import opened Pipeline
  import Header
  import Hex

  const KEYPACKAGE_SUBMIT_TOPIC := "/logos-chat/1/store-keypackage-v0/proto"
  const ACCOUNT_SUBMIT_TOPIC := "/logos-chat/1/store-account-v0/proto"

  datatype Received = ReceivedKeyPackage(bytes: Bytes) | ReceivedAccount(bytes: Bytes)

  /** A node event that carries a message: its topic and, if it has one, its payload. */
  datatype Message = Message(topic: string, payload: Option<Bytes>)

  /** The two protobuf decoders. */
  datatype Wire = Wire(keypackage: Bytes -> Option<Fields>, account: Bytes -> Option<Fields>)

  function Dispatch(m: Message): Option<Received> {
    if m.payload.None? then None
    else if m.topic == KEYPACKAGE_SUBMIT_TOPIC then Some(ReceivedKeyPackage(m.payload.value))
    else if m.topic == ACCOUNT_SUBMIT_TOPIC then Some(ReceivedAccount(m.payload.value))
    else None
  }

  function Parse(wire: Wire, r: Received): Option<Request> {
    match r
    case ReceivedKeyPackage(b) =>
      (match wire.keypackage(b) case Some(f) => Some(DeliverKeyPackage(f)) case None => None)
    case ReceivedAccount(b) =>
      (match wire.account(b) case Some(f) => Some(DeliverAccount(f)) case None => None)
  }

  /** The two topics, each for one kind of bundle, and nothing else; a message without payload is dropped. */
  lemma DispatchIff(m: Message, p: Bytes)
    ensures Dispatch(m) == Some(ReceivedKeyPackage(p))
            <==> m.topic == "/logos-chat/1/store-keypackage-v0/proto" && m.payload == Some(p)
    ensures Dispatch(m) == Some(ReceivedAccount(p))
            <==> m.topic == "/logos-chat/1/store-account-v0/proto" && m.payload == Some(p)
  {
    assert KEYPACKAGE_SUBMIT_TOPIC[20] == 'k' && ACCOUNT_SUBMIT_TOPIC[20] == 'a';
  }

  /** A message's topic decides the one table it can change; no delivery reaches the account logs. */
  lemma TopicDecidesTable(v: Rules, wire: Wire, s: State, now: u64, m: Message)
    requires Dispatch(m).Some? && Parse(wire, Dispatch(m).value).Some?
    ensures var after := Serve(v, s, now, Parse(wire, Dispatch(m).value).value).0;
            && after.logs == s.logs
            && (m.topic == KEYPACKAGE_SUBMIT_TOPIC ==> after.accounts == s.accounts)
            && (m.topic == ACCOUNT_SUBMIT_TOPIC ==> after.keypackages == s.keypackages)
  {
  }

  /** The queue as arrivals of the service; what no decoder reads is dropped. */
  function Deliveries(wire: Wire, queue: seq<Received>, clock: nat -> u64): seq<Arrival>
    decreases |queue|
  {
    if queue == [] then []
    else
      var n := |queue| - 1;
      var rest := Deliveries(wire, queue[..n], clock);
      match Parse(wire, queue[n])
      case Some(r) => rest + [Arrival(clock(n), Publish(r))]
      case None => rest
  }

  predicate Readable(wire: Wire, q: Received) {
    match q
    case ReceivedKeyPackage(b) => wire.keypackage(b).Some?
    case ReceivedAccount(b) => wire.account(b).Some?
  }

  /** The arrival is this queue item, read by the decoder of its own kind, at this time. */
  predicate ArrivesAs(wire: Wire, q: Received, now: u64, a: Arrival) {
    && a.now == now && a.work.Publish?
    && match q
       case ReceivedKeyPackage(b) =>
         wire.keypackage(b).Some? && a.work.request == DeliverKeyPackage(wire.keypackage(b).value)
       case ReceivedAccount(b) =>
         wire.account(b).Some? && a.work.request == DeliverAccount(wire.account(b).value)
  }

  /** The arrivals are the readable items of the queue, each once, in queue order, with its own clock reading. */
  lemma {:induction false} DeliveriesExact(wire: Wire, queue: seq<Received>, clock: nat -> u64) returns (at: seq<nat>)
    ensures |at| == |Deliveries(wire, queue, clock)|
    ensures forall j, k :: 0 <= j < k < |at| ==> at[j] < at[k]
    ensures forall j :: 0 <= j < |at| ==> at[j] < |queue|
    ensures forall j :: 0 <= j < |at| ==>
              ArrivesAs(wire, queue[at[j]], clock(at[j]), Deliveries(wire, queue, clock)[j])
    ensures forall i :: 0 <= i < |queue| ==> (i in at <==> Readable(wire, queue[i]))
    decreases |queue|
  {
    if queue == [] {
      at := [];
    } else {
      var n := |queue| - 1;
      at := DeliveriesExact(wire, queue[..n], clock);
      if Parse(wire, queue[n]).Some? {
        at := at + [n];
      }
    }
  }

  // ---- what draining the queue leaves in the tables ----

  /** The item is a keypackage bundle that verifies. */
  predicate OffersKeyPackage(v: Rules, wire: Wire, q: Received, f: Fields) {
    q.ReceivedKeyPackage? && wire.keypackage(q.bytes) == Some(f) && Verifies(v, f)
  }

  /** The item is an account bundle that verifies and has a lamport. */
  predicate OffersAccount(v: Rules, wire: Wire, q: Received, f: Fields) {
    q.ReceivedAccount? && wire.account(q.bytes) == Some(f) && Sound(v, f)
  }

  predicate IsRowOf(id: RowId, b: KeyPackage, f: Fields, now: u64) {
    id == RowId(Hex.Encode(f.key), AsI64(now)) && b == KeyPackage(f.payload, f.signature)
  }

  predicate IsAccountOf(name: string, row: AccountRow, f: Fields, now: u64) {
    name == Hex.Encode(f.key) && row == AccountRow(f.payload, f.signature, AsI64(now))
  }

  /** The account has a row whose lamport is at least that of `f`. */
  predicate Reaches(t: map<string, AccountRow>, f: Fields) {
    && Hex.Encode(f.key) in t && Header.PayloadLamport(f.payload).Some?
    && Header.PayloadLamport(t[Hex.Encode(f.key)].payload).Some?
    && Header.PayloadLamport(t[Hex.Encode(f.key)].payload).value >= Header.PayloadLamport(f.payload).value
  }

  /** The row is one of the queue's bundles, under its own key and at its own clock reading. */
  ghost predicate RowFrom(v: Rules, wire: Wire, queue: seq<Received>, clock: nat -> u64, id: RowId, b: KeyPackage) {
    exists i, f :: 0 <= i < |queue| && OffersKeyPackage(v, wire, queue[i], f) && IsRowOf(id, b, f, clock(i))
  }

  ghost predicate AccountFrom(v: Rules, wire: Wire, queue: seq<Received>, clock: nat -> u64, a: string, row: AccountRow)
  {
    exists i, f :: 0 <= i < |queue| && OffersAccount(v, wire, queue[i], f) && IsAccountOf(a, row, f, clock(i))
  }

  /** No row is lost or changed, every bundle of the queue that verifies has its row, each new row is one of them. */
  ghost predicate KeyPackagesFrom(v: Rules, before: History, after: History, wire: Wire, queue: seq<Received>,
                                  clock: nat -> u64) {
    && (forall id :: id in before ==> id in after && after[id] == before[id])
    && (forall i, f :: 0 <= i < |queue| && OffersKeyPackage(v, wire, queue[i], f) ==>
          RowId(Hex.Encode(f.key), AsI64(clock(i))) in after)
    && (forall id :: id in after && id !in before ==> RowFrom(v, wire, queue, clock, id, after[id]))
  }

  /** No row is lost, every sound bundle of the queue is stored or outdone, and each changed row is one of them. */
  ghost predicate AccountsFrom(v: Rules, before: map<string, AccountRow>, after: map<string, AccountRow>, wire: Wire,
                               queue: seq<Received>, clock: nat -> u64) {
    && (forall a :: a in before ==> a in after)
    && (forall i, f :: 0 <= i < |queue| && OffersAccount(v, wire, queue[i], f) ==> Reaches(after, f))
    && (forall a :: a in after && !(a in before && before[a] == after[a]) ==>
          AccountFrom(v, wire, queue, clock, a, after[a]))
  }

  /** The tables after one item of the queue. */
  function Took(v: Rules, s: State, wire: Wire, q: Received, now: u64): State {
    match Parse(wire, q)
    case Some(r) => Serve(v, s, now, r).0
    case None => s
  }

  lemma TookKeyPackage(v: Rules, s: State, wire: Wire, q: Received, now: u64)
    ensures Took(v, s, wire, q, now).logs == s.logs
    ensures var after := Took(v, s, wire, q, now).keypackages;
            && (forall id :: id in s.keypackages ==> id in after && after[id] == s.keypackages[id])
            && (forall f :: OffersKeyPackage(v, wire, q, f) ==> RowId(Hex.Encode(f.key), AsI64(now)) in after)
            && (forall id :: id in after && id !in s.keypackages ==>
                  exists f :: OffersKeyPackage(v, wire, q, f) && IsRowOf(id, after[id], f, now))
  {
    var after := Took(v, s, wire, q, now);
    if id :| id in after.keypackages && id !in s.keypackages {
      var f := Parse(wire, q).value.fields;
      assert OffersKeyPackage(v, wire, q, f) && IsRowOf(id, after.keypackages[id], f, now);
    }
  }

  lemma TookAccount(v: Rules, s: State, wire: Wire, q: Received, now: u64)
    ensures forall a :: a in s.accounts ==> a in Took(v, s, wire, q, now).accounts
    ensures forall f :: OffersAccount(v, wire, q, f) ==> Reaches(Took(v, s, wire, q, now).accounts, f)
    ensures forall f :: Reaches(s.accounts, f) ==> Reaches(Took(v, s, wire, q, now).accounts, f)
    ensures var after := Took(v, s, wire, q, now).accounts;
            forall a :: a in after && !(a in s.accounts && s.accounts[a] == after[a]) ==>
              exists f :: OffersAccount(v, wire, q, f) && IsAccountOf(a, after[a], f, now)
  {
    if q.ReceivedAccount? && wire.account(q.bytes).Some? {
      var f := wire.account(q.bytes).value;
      AdmitAccountIffSound(v, f);
      assert Sound(v, f) ==> OffersAccount(v, wire, q, f);
    }
  }

  lemma KeyPackagesSnoc(v: Rules, before: History, s: State, wire: Wire, queue: seq<Received>, clock: nat -> u64)
    requires queue != [] && KeyPackagesFrom(v, before, s.keypackages, wire, queue[..|queue| - 1], clock)
    ensures var n := |queue| - 1;
            KeyPackagesFrom(v, before, Took(v, s, wire, queue[n], clock(n)).keypackages, wire, queue, clock)
  {
    var n := |queue| - 1;
    var rest, after := queue[..n], Took(v, s, wire, queue[n], clock(n)).keypackages;
    TookKeyPackage(v, s, wire, queue[n], clock(n));
    forall id | id in after && id !in before
      ensures RowFrom(v, wire, queue, clock, id, after[id])
    {
      if id in s.keypackages {
        var i, f :| 0 <= i < |rest| && OffersKeyPackage(v, wire, rest[i], f) && IsRowOf(id, after[id], f, clock(i));
        assert OffersKeyPackage(v, wire, queue[i], f);
      } else {
        var f :| OffersKeyPackage(v, wire, queue[n], f) && IsRowOf(id, after[id], f, clock(n));
      }
    }
    forall i, f | 0 <= i < |queue| && OffersKeyPackage(v, wire, queue[i], f)
      ensures RowId(Hex.Encode(f.key), AsI64(clock(i))) in after
    {
      assert i < n ==> OffersKeyPackage(v, wire, rest[i], f);
    }
  }

  lemma AccountsSnoc(v: Rules, before: map<string, AccountRow>, s: State, wire: Wire, queue: seq<Received>,
                     clock: nat -> u64)
    requires queue != [] && AccountsFrom(v, before, s.accounts, wire, queue[..|queue| - 1], clock)
    ensures var n := |queue| - 1;
            AccountsFrom(v, before, Took(v, s, wire, queue[n], clock(n)).accounts, wire, queue, clock)
  {
    var n := |queue| - 1;
    var rest, after := queue[..n], Took(v, s, wire, queue[n], clock(n)).accounts;
    TookAccount(v, s, wire, queue[n], clock(n));
    forall a | a in after && !(a in before && before[a] == after[a])
      ensures AccountFrom(v, wire, queue, clock, a, after[a])
    {
      if a in s.accounts && s.accounts[a] == after[a] {
        var i, f :| 0 <= i < |rest| && OffersAccount(v, wire, rest[i], f) && IsAccountOf(a, after[a], f, clock(i));
        assert OffersAccount(v, wire, queue[i], f);
      } else {
        var f :| OffersAccount(v, wire, queue[n], f) && IsAccountOf(a, after[a], f, clock(n));
      }
    }
    forall i, f | 0 <= i < |queue| && OffersAccount(v, wire, queue[i], f)
      ensures Reaches(after, f)
    {
      if i < n { assert OffersAccount(v, wire, rest[i], f); }
    }
  }

  /**
   Draining a queue of any messages: every keypackage that verifies has its row, every sound account bundle is stored
   or outdone by a lamport at least as high, nothing else appears, and nothing is lost.
   */
  lemma {:induction false} Drained(v: Rules, s: State, wire: Wire, queue: seq<Received>, clock: nat -> u64)
    ensures var after := RunFrom(v, s, AllEvents(v, Deliveries(wire, queue, clock)));
            && KeyPackagesFrom(v, s.keypackages, after.keypackages, wire, queue, clock)
            && AccountsFrom(v, s.accounts, after.accounts, wire, queue, clock)
            && after.logs == s.logs
    decreases |queue|
  {
    if queue != [] {
      var n := |queue| - 1;
      var rest := Deliveries(wire, queue[..n], clock);
      var middle := RunFrom(v, s, AllEvents(v, rest));
      Drained(v, s, wire, queue[..n], clock);
      KeyPackagesSnoc(v, s.keypackages, middle, wire, queue, clock);
      AccountsSnoc(v, s.accounts, middle, wire, queue, clock);
      TookKeyPackage(v, middle, wire, queue[n], clock(n));
      if Parse(wire, queue[n]).Some? {
        ServiceStep(v, s, rest, Arrival(clock(n), Publish(Parse(wire, queue[n]).value)));
      }
    }
  }
}
