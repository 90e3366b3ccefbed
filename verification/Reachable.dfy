/** What holds of every row in every state that admitted events can produce. */
module Reachable {
  import opened Basics
  import opened Tables
  import Hex
  import Header
  import Accounts
  import Logs

  /** The 32-byte key a row key is the canonical spelling of, if it is one. */
  function KeyOf(name: string): Option<Key> {
    match Hex.Decode(name)
    case Some(k) => if |k| == 32 && Hex.Encode(k) == name then Some(k) else None
    case None => None
  }

  lemma KeyOfEncoded(k: Key)
    ensures KeyOf(Hex.Encode(k)) == Some(k)
  {
    Hex.EncodeIsLower(k);
    Hex.DecodeIffCasing(Hex.Encode(k), k);
  }

  predicate Signed(v: Rules, name: string, payload: Bytes, signature: Bytes) {
    KeyOf(name).Some? && v.verifies(KeyOf(name).value, payload, signature)
  }

  /** What the pipeline has established by the time it calls the store. */
  predicate Admitted(v: Rules, e: Event) {
    match e.action
    case Insert(device, b) => Signed(v, device, b.payload, b.signature)
    case Upsert(account, lamport, payload, signature) =>
      Signed(v, account, payload, signature) && Header.PayloadLamport(payload) == Some(lamport)
    case PutLog(c) => Logs.Admissible(v, c)
    case _ => true
  }

  /** Every row verifies under its own key, every v0 row carries a lamport, every v1 row splits into a signed log. */
  ghost predicate Genuine(v: Rules, s: State) {
    && (forall id :: id in s.keypackages ==> GenuineBundle(v, id.device, s.keypackages[id]))
    && (forall a :: a in s.accounts ==> GenuineAccount(v, a, s.accounts[a]))
    && (forall a :: a in s.logs ==> GenuineLog(v, a, s.logs[a].signedLog))
  }

  predicate GenuineBundle(v: Rules, device: string, b: KeyPackage) {
    Signed(v, device, b.payload, b.signature)
  }

  predicate GenuineAccount(v: Rules, a: string, row: AccountRow) {
    Signed(v, a, row.payload, row.signature) && Header.PayloadLamport(row.payload).Some?
  }

  predicate GenuineLog(v: Rules, a: string, b: Bytes) {
    match SplitSigned(b)
    case None => false
    case Some((signature, payload)) => Signed(v, a, payload, signature) && v.decodesLog(payload)
  }

  lemma GenuineStep(v: Rules, s: State, e: Event)
    requires Genuine(v, s) && Admitted(v, e)
    ensures Genuine(v, Next(v, s, e))
  {
    var t := Next(v, s, e);
    forall id | id in t.keypackages
      ensures GenuineBundle(v, id.device, t.keypackages[id])
    {
      BundleOrigin(v, s, e, id);
    }
    forall a | a in t.accounts
      ensures GenuineAccount(v, a, t.accounts[a])
    {
      AccountOrigin(v, s, e, a);
    }
    forall a | a in t.logs
      ensures GenuineLog(v, a, t.logs[a].signedLog)
    {
      LogOrigin(v, s, e, a);
      if e.action.PutLog? {
        Logs.SplitOfRecord(e.action.candidate);
        KeyOfEncoded(e.action.candidate.addr);
      }
    }
  }

  /** A row was there before or is the one the event carries. */
  lemma BundleOrigin(v: Rules, s: State, e: Event, id: RowId)
    requires id in Next(v, s, e).keypackages
    ensures (id in s.keypackages && Next(v, s, e).keypackages[id] == s.keypackages[id])
            || e.action == Insert(id.device, Next(v, s, e).keypackages[id])
  {
  }

  lemma AccountOrigin(v: Rules, s: State, e: Event, a: string)
    requires a in Next(v, s, e).accounts
    ensures (a in s.accounts && Next(v, s, e).accounts[a] == s.accounts[a])
            || (Accounts.Submits(e, a) && Next(v, s, e).accounts[a] == Accounts.RowOf(e))
  {
  }

  lemma LogOrigin(v: Rules, s: State, e: Event, a: string)
    requires a in Next(v, s, e).logs
    ensures (a in s.logs && Next(v, s, e).logs[a] == s.logs[a]) || Logs.From(e, a, Next(v, s, e).logs[a])
  {
  }

  ghost predicate AllAdmitted(v: Rules, es: seq<Event>) {
    forall i :: 0 <= i < |es| ==> Admitted(v, es[i])
  }

  /** Every reachable state is genuine. */
  lemma {:induction false} GenuineRun(v: Rules, s: State, es: seq<Event>)
    requires Genuine(v, s) && AllAdmitted(v, es)
    ensures Genuine(v, RunFrom(v, s, es))
    decreases |es|
  {
    if es != [] {
      GenuineRun(v, s, es[..|es| - 1]);
      GenuineStep(v, RunFrom(v, s, es[..|es| - 1]), es[|es| - 1]);
    }
  }

  /**
   In a genuine state the defensive branches are dead: a stored log always re-verifies, an admitted candidate is
   never rejected by the comparison, and a stored v0 row always has a lamport to compare with.
   */
  lemma DefensiveBranchesDead(v: Rules, s: State, e: Event)
    requires Genuine(v, s) && Admitted(v, e)
    ensures Answer(v, s, e) !in {Compared(Corrupt), Compared(Rejected)}
    ensures e.action.Upsert? ==>
              (Answer(v, s, e) == Applied(true) <==>
               e.action.account !in s.accounts
               || Header.PayloadLamport(s.accounts[e.action.account].payload).value < e.action.lamport)
    ensures e.action.PutLog? && e.action.candidate.Account() in s.logs ==>
              var stored := s.logs[e.action.candidate.Account()].signedLog[64..];
              Answer(v, s, e) == Compared(Relate(stored, e.action.candidate.payload))
  {
    if e.action.PutLog? && e.action.candidate.Account() in s.logs {
      KeyOfEncoded(e.action.candidate.addr);
    }
  }

  predicate Canonical(name: string) {
    |name| == 64 && forall i :: 0 <= i < |name| ==> Hex.IsLowerHex(name[i])
  }

  lemma SignedIsCanonical(v: Rules, name: string, payload: Bytes, signature: Bytes)
    requires Signed(v, name, payload, signature)
    ensures Canonical(name) && Hex.LowerAll(name) == name
  {
    Hex.EncodeIsLower(KeyOf(name).value);
  }

  /** Every key stored in any of the three tables is 64 lower-case hex characters. */
  lemma CanonicalKeys(v: Rules, s: State)
    requires Genuine(v, s)
    ensures forall id :: id in s.keypackages ==> Canonical(id.device)
    ensures forall a :: a in s.accounts ==> Canonical(a)
    ensures forall a :: a in s.logs ==> Canonical(a)
  {
    forall id | id in s.keypackages ensures Canonical(id.device) {
      SignedIsCanonical(v, id.device, s.keypackages[id].payload, s.keypackages[id].signature);
    }
    forall a | a in s.accounts ensures Canonical(a) {
      SignedIsCanonical(v, a, s.accounts[a].payload, s.accounts[a].signature);
    }
    forall a | a in s.logs ensures Canonical(a) {
      var (signature, payload) := SplitSigned(s.logs[a].signedLog).value;
      SignedIsCanonical(v, a, payload, signature);
    }
  }

  /** Under a spelling with an upper-case letter there is nothing to find in any table. */
  lemma UpperCaseFindsNothing(v: Rules, s: State, spelling: string)
    requires Genuine(v, s) && Hex.LowerAll(spelling) != spelling
    ensures Latest(s.keypackages, spelling) == None && spelling !in s.accounts && spelling !in s.logs
  {
    if id :| id in Rows(s.keypackages, spelling) {
      SignedIsCanonical(v, id.device, s.keypackages[id].payload, s.keypackages[id].signature);
    }
    if spelling in s.accounts {
      SignedIsCanonical(v, spelling, s.accounts[spelling].payload, s.accounts[spelling].signature);
    }
    if spelling in s.logs {
      var (signature, payload) := SplitSigned(s.logs[spelling].signedLog).value;
      SignedIsCanonical(v, spelling, payload, signature);
    }
  }
}
