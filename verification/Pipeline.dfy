/** From either wire to the store and back to a status: decode, verify, apply. */
module Pipeline {
  import opened Basics
  import opened Tables
  import Hex
  import Base64
  import Header
  import Retention
  import Logs
  import Accounts
  import KeyPackages
  import Reachable
  import Schedule

  /** The fixed messages of an invalid submission. */
  datatype Reason =
    | KeyNotHex | PayloadNotBase64 | SignatureNotBase64
    | KeyLength | SignatureLength
    | KeyNotValid | SignatureFails | NoLamport | AddressNotValid

  datatype BundleError = Invalid(reason: Reason) | MalformedLog | Stale | Forked | Internal

  datatype Bundle = Bundle(key: Key, payload: Bytes, signature: Signature) {
    function KeyHex(): string { Hex.Encode(key) }
  }

  /** The three fields every submission carries, as raw bytes. */
  datatype Fields = Fields(key: Bytes, payload: Bytes, signature: Bytes)

  function FromBytes(f: Fields): Result<Bundle, BundleError> {
    if |f.key| != 32 then Err(Invalid(KeyLength))
    else if |f.signature| != 64 then Err(Invalid(SignatureLength))
    else Ok(Bundle(f.key, f.payload, f.signature))
  }

  function Verify(v: Rules, b: Bundle): Result<(), BundleError> {
    if !v.validKey(b.key) then Err(Invalid(KeyNotValid))
    else if !v.verifies(b.key, b.payload, b.signature) then Err(Invalid(SignatureFails))
    else Ok(())
  }

  /** A JSON body's text: the key in hex, payload and signature in base 64. */
  datatype Text = Text(key: string, payload: string, signature: string)

  function DecodeText(t: Text): Result<Fields, BundleError> {
    match Hex.Decode(t.key)
    case None => Err(Invalid(KeyNotHex))
    case Some(key) =>
      match Base64.Decode(t.payload)
      case None => Err(Invalid(PayloadNotBase64))
      case Some(payload) =>
        match Base64.Decode(t.signature)
        case None => Err(Invalid(SignatureNotBase64))
        case Some(signature) => Ok(Fields(key, payload, signature))
  }

  function DecodeBundle(t: Text): Result<Bundle, BundleError> {
    match DecodeText(t)
    case Err(e) => Err(e)
    case Ok(f) => FromBytes(f)
  }

  datatype Request =
    | PostKeyPackage(text: Text)
    | PostAccount(text: Text)
    | PostLog(addr: string, body: Bytes)
    | DeliverKeyPackage(fields: Fields)
    | DeliverAccount(fields: Fields)

  function AdmitKeyPackage(v: Rules, b: Bundle): Result<Action, BundleError> {
    match Verify(v, b)
    case Err(e) => Err(e)
    case Ok(_) => Ok(Insert(b.KeyHex(), KeyPackage(b.payload, b.signature)))
  }

  function AdmitAccount(v: Rules, b: Bundle): Result<Action, BundleError> {
    match Verify(v, b)
    case Err(e) => Err(e)
    case Ok(_) =>
      match Header.PayloadLamport(b.payload)
      case None => Err(Invalid(NoLamport))
      case Some(l) => Ok(Upsert(b.KeyHex(), l, b.payload, b.signature))
  }

  function AdmitLog(v: Rules, c: AccountRecord): Result<Action, BundleError> {
    if !v.verifies(c.addr, c.payload, c.signature) then Err(Invalid(SignatureFails))
    else if !v.decodesLog(c.payload) then Err(MalformedLog)
    else Ok(PutLog(c))
  }

  /** An account address: the canonical spelling of a valid key. */
  function ParseAddr(v: Rules, text: string): Option<Key> {
    match Reachable.KeyOf(text)
    case Some(k) => if v.validKey(k) then Some(k) else None
    case None => None
  }

  function DecodeLog(v: Rules, addr: string, body: Bytes): Result<AccountRecord, BundleError> {
    match ParseAddr(v, addr)
    case None => Err(Invalid(AddressNotValid))
    case Some(key) =>
      match SplitSigned(body)
      case None => Err(MalformedLog)
      case Some((signature, payload)) => Ok(AccountRecord(key, signature, payload))
  }

  function AdmitKeyPackageFields(v: Rules, f: Fields): Result<Action, BundleError> {
    match FromBytes(f)
    case Err(e) => Err(e)
    case Ok(b) => AdmitKeyPackage(v, b)
  }

  function AdmitAccountFields(v: Rules, f: Fields): Result<Action, BundleError> {
    match FromBytes(f)
    case Err(e) => Err(e)
    case Ok(b) => AdmitAccount(v, b)
  }

  /** Everything that happens before the store is called: the one action a request asks for, or its refusal. */
  function Admit(v: Rules, r: Request): Result<Action, BundleError> {
    match r
    case PostKeyPackage(t) =>
      (match DecodeText(t) case Err(e) => Err(e) case Ok(f) => AdmitKeyPackageFields(v, f))
    case PostAccount(t) =>
      (match DecodeText(t) case Err(e) => Err(e) case Ok(f) => AdmitAccountFields(v, f))
    case DeliverKeyPackage(f) => AdmitKeyPackageFields(v, f)
    case DeliverAccount(f) => AdmitAccountFields(v, f)
    case PostLog(addr, body) =>
      (match DecodeLog(v, addr, body) case Err(e) => Err(e) case Ok(c) => AdmitLog(v, c))
  }

  /** What the store's answer means to the submitter. */
  function Conclude(o: Outcome): Result<(), BundleError> {
    match o
    case Inserted => Ok(())
    case DuplicateKey => Err(Internal)
    case Applied(stored) => if stored then Ok(()) else Err(Stale)
    case Compared(Updated) => Ok(())
    case Compared(Identical) => Ok(())
    case Compared(Behind) => Err(Stale)
    case Compared(Diverged) => Err(Forked)
    case Compared(_) => Err(Internal)
    case Deleted => Ok(())
  }

  function StatusOf(r: Result<(), BundleError>): int {
    match r
    case Ok(_) => 204
    case Err(Invalid(_)) => 400
    case Err(MalformedLog) => 400
    case Err(Stale) => 409
    case Err(Forked) => 409
    case Err(Internal) => 500
  }

  function Serve(v: Rules, s: State, now: u64, r: Request): (State, Result<(), BundleError>) {
    match Admit(v, r)
    case Err(e) => (s, Err(e))
    case Ok(action) => (Next(v, s, Event(now, action)), Conclude(Answer(v, s, Event(now, action))))
  }

  function Status(v: Rules, s: State, now: u64, r: Request): int {
    StatusOf(Serve(v, s, now, r).1)
  }

  // ---- one request ----

  /** Nothing reaches the store unverified. */
  lemma AdmitsOnlyVerified(v: Rules, now: u64, r: Request)
    requires Admit(v, r).Ok?
    ensures Reachable.Admitted(v, Event(now, Admit(v, r).value))
  {
    match r
    case PostKeyPackage(t) => Reachable.KeyOfEncoded(DecodeText(t).value.key);
    case PostAccount(t) => Reachable.KeyOfEncoded(DecodeText(t).value.key);
    case DeliverKeyPackage(f) => Reachable.KeyOfEncoded(f.key);
    case DeliverAccount(f) => Reachable.KeyOfEncoded(f.key);
    case PostLog(addr, body) =>
  }

  /** Any answer but 204 leaves all three tables as they were. */
  lemma RefusalChangesNothing(v: Rules, s: State, now: u64, r: Request)
    ensures Status(v, s, now, r) != 204 ==> Serve(v, s, now, r).0 == s
  {
  }

  /** The fields have the right lengths and the signature verifies under the key. */
  predicate Verifies(v: Rules, f: Fields) {
    && |f.key| == 32 && |f.signature| == 64
    && v.validKey(f.key) && v.verifies(f.key, f.payload, f.signature)
  }

  /** The conditions on a v0 account body that do not depend on the tables. */
  predicate Sound(v: Rules, f: Fields) {
    Verifies(v, f) && Header.PayloadLamport(f.payload).Some?
  }

  /** The text is a casing of the key's hex and the one base-64 spelling of payload and signature. */
  predicate Spells(t: Text, f: Fields) {
    && Hex.LowerAll(t.key) == Hex.Encode(f.key)
    && t.payload == Base64.Encode(f.payload)
    && t.signature == Base64.Encode(f.signature)
  }

  lemma DecodeIffSpells(t: Text, f: Fields)
    ensures DecodeText(t) == Ok(f) <==> Spells(t, f)
  {
    Hex.DecodeIffCasing(t.key, f.key);
    Base64.DecodeIffEncoded(t.payload, f.payload);
    Base64.DecodeIffEncoded(t.signature, f.signature);
  }

  ghost predicate Beats(s: State, f: Fields) {
    var a := Hex.Encode(f.key);
    a in s.accounts && Header.PayloadLamport(s.accounts[a].payload).Some? && Header.PayloadLamport(f.payload).Some? ==>
      Header.PayloadLamport(f.payload).value > Header.PayloadLamport(s.accounts[a].payload).value
  }

  /**
   A v0 account publish answers 204 exactly when its text spells a sound bundle whose lamport exceeds any stored
   one, 409 exactly when only the lamport fails, and 400 otherwise.
   */
  lemma AccountPublish(v: Rules, s: State, now: u64, t: Text)
    requires Reachable.Genuine(v, s)
    ensures Status(v, s, now, PostAccount(t)) == 204 <==> exists f :: Spells(t, f) && Sound(v, f) && Beats(s, f)
    ensures Status(v, s, now, PostAccount(t)) == 409 <==> exists f :: Spells(t, f) && Sound(v, f) && !Beats(s, f)
    ensures Status(v, s, now, PostAccount(t)) in {204, 400, 409}
  {
    forall f: Fields
      ensures DecodeText(t) == Ok(f) <==> Spells(t, f)
    {
      DecodeIffSpells(t, f);
    }
    if DecodeText(t).Ok? {
      var f := DecodeText(t).value;
      assert Spells(t, f);
      AccountStatus(v, s, now, t, f);
    }
  }

  lemma AdmitAccountIffSound(v: Rules, f: Fields)
    ensures Sound(v, f) ==>
              var lamport := Header.PayloadLamport(f.payload).value;
              AdmitAccountFields(v, f) == Ok(Upsert(Hex.Encode(f.key), lamport, f.payload, f.signature))
    ensures !Sound(v, f) ==> AdmitAccountFields(v, f).Err? && AdmitAccountFields(v, f).error.Invalid?
  {
  }

  lemma AccountStatus(v: Rules, s: State, now: u64, t: Text, f: Fields)
    requires Reachable.Genuine(v, s) && DecodeText(t) == Ok(f)
    ensures Status(v, s, now, PostAccount(t)) == if !Sound(v, f) then 400 else if Beats(s, f) then 204 else 409
  {
    AdmitAccountIffSound(v, f);
    assert Admit(v, PostAccount(t)) == AdmitAccountFields(v, f);
    if Sound(v, f) {
      FreshIffBeats(v, s, f);
    }
  }

  lemma FreshIffBeats(v: Rules, s: State, f: Fields)
    requires Reachable.Genuine(v, s) && Header.PayloadLamport(f.payload).Some?
    ensures Fresh(Lookup(s.accounts, Hex.Encode(f.key)), Header.PayloadLamport(f.payload).value) <==> Beats(s, f)
  {
  }

  ghost predicate IsHex(text: string) {
    exists b :: Hex.LowerAll(text) == Hex.Encode(b)
  }

  ghost predicate IsBase64(text: string) {
    exists b :: text == Base64.Encode(b)
  }

  /** The first check that raw fields fail, in the order in which they are made. */
  predicate FieldsBlamed(v: Rules, f: Fields, reason: Reason) {
    match reason
    case KeyLength => |f.key| != 32
    case SignatureLength => |f.key| == 32 && |f.signature| != 64
    case KeyNotValid => |f.key| == 32 && |f.signature| == 64 && !v.validKey(f.key)
    case SignatureFails => |f.key| == 32 && |f.signature| == 64 && v.validKey(f.key) && !Verifies(v, f)
    case NoLamport => Verifies(v, f) && Header.PayloadLamport(f.payload).None?
    case _ => false
  }

  lemma FieldsRefusal(v: Rules, f: Fields, reason: Reason)
    ensures AdmitAccountFields(v, f) == Err(Invalid(reason)) <==> FieldsBlamed(v, f, reason)
    ensures AdmitKeyPackageFields(v, f) == Err(Invalid(reason)) <==>
            FieldsBlamed(v, f, reason) && reason != NoLamport
  {
  }

  /** The first of the three texts that cannot be read. */
  ghost predicate TextBlamed(t: Text, reason: Reason) {
    match reason
    case KeyNotHex => !IsHex(t.key)
    case PayloadNotBase64 => IsHex(t.key) && !IsBase64(t.payload)
    case SignatureNotBase64 => IsHex(t.key) && IsBase64(t.payload) && !IsBase64(t.signature)
    case _ => false
  }

  /** The first check that a JSON bundle fails: its texts, then its fields. */
  ghost predicate Blamed(v: Rules, t: Text, reason: Reason) {
    TextBlamed(t, reason) || exists f :: Spells(t, f) && FieldsBlamed(v, f, reason)
  }

  /** A bundle that is refused as invalid is told the first thing that is wrong with it. */
  lemma RefusalNamesFirstFault(v: Rules, t: Text, reason: Reason)
    ensures Admit(v, PostAccount(t)) == Err(Invalid(reason)) <==> Blamed(v, t, reason)
    ensures Admit(v, PostKeyPackage(t)) == Err(Invalid(reason)) <==> Blamed(v, t, reason) && reason != NoLamport
  {
    TextRefusal(t, reason);
    if DecodeText(t).Ok? {
      var f := DecodeText(t).value;
      FieldsRefusal(v, f, reason);
      assert Admit(v, PostAccount(t)) == AdmitAccountFields(v, f);
      assert Admit(v, PostKeyPackage(t)) == AdmitKeyPackageFields(v, f);
    }
  }

  lemma TextRefusal(t: Text, reason: Reason)
    ensures DecodeText(t) == Err(Invalid(reason)) <==> TextBlamed(t, reason)
    ensures DecodeText(t).Err? ==> DecodeText(t).error.Invalid?
    ensures forall f :: Spells(t, f) <==> DecodeText(t) == Ok(f)
  {
    DecodersByText(t);
    forall f: Fields
      ensures DecodeText(t) == Ok(f) <==> Spells(t, f)
    {
      DecodeIffSpells(t, f);
    }
  }

  lemma DecodersByText(t: Text)
    ensures Hex.Decode(t.key).Some? <==> IsHex(t.key)
    ensures Base64.Decode(t.payload).Some? <==> IsBase64(t.payload)
    ensures Base64.Decode(t.signature).Some? <==> IsBase64(t.signature)
  {
    forall b: Bytes
      ensures Hex.Decode(t.key) == Some(b) <==> Hex.LowerAll(t.key) == Hex.Encode(b)
      ensures Base64.Decode(t.payload) == Some(b) <==> t.payload == Base64.Encode(b)
      ensures Base64.Decode(t.signature) == Some(b) <==> t.signature == Base64.Encode(b)
    {
      Hex.DecodeIffCasing(t.key, b);
      Base64.DecodeIffEncoded(t.payload, b);
      Base64.DecodeIffEncoded(t.signature, b);
    }
  }

  /** The device already has a row of this millisecond. */
  predicate Taken(s: State, now: u64, f: Fields) {
    RowId(Hex.Encode(f.key), AsI64(now)) in s.keypackages
  }

  lemma KeyPackageStatus(v: Rules, s: State, now: u64, t: Text, f: Fields)
    requires Spells(t, f)
    ensures Status(v, s, now, PostKeyPackage(t)) ==
            if !Verifies(v, f) then 400 else if Taken(s, now, f) then 500 else 204
    ensures Status(v, s, now, PostKeyPackage(t)) == 204 ==>
            Serve(v, s, now, PostKeyPackage(t)).0 == s.(keypackages :=
              s.keypackages[RowId(Hex.Encode(f.key), AsI64(now)) := KeyPackage(f.payload, f.signature)])
  {
    DecodeIffSpells(t, f);
  }

  /**
   A keypackage publish answers 204 exactly when its text spells a bundle that verifies and whose device has no
   row of this millisecond yet, 500 exactly when it verifies and there is such a row, and 400 otherwise.
   */
  lemma KeyPackagePublish(v: Rules, s: State, now: u64, t: Text)
    ensures Status(v, s, now, PostKeyPackage(t)) == 204
            <==> exists f :: Spells(t, f) && Verifies(v, f) && !Taken(s, now, f)
    ensures Status(v, s, now, PostKeyPackage(t)) == 500
            <==> exists f :: Spells(t, f) && Verifies(v, f) && Taken(s, now, f)
    ensures Status(v, s, now, PostKeyPackage(t)) in {204, 400, 500}
  {
    forall f: Fields | Spells(t, f)
      ensures DecodeText(t) == Ok(f)
      ensures Status(v, s, now, PostKeyPackage(t)) ==
              if !Verifies(v, f) then 400 else if Taken(s, now, f) then 500 else 204
    {
      DecodeIffSpells(t, f);
      KeyPackageStatus(v, s, now, t, f);
    }
    if DecodeText(t).Ok? {
      DecodeIffSpells(t, DecodeText(t).value);
    }
  }

  /**
   A key is stored in lower case and looked up as it is spelt: after a publish that is accepted, fetching under the
   very text that was published finds a row exactly when that text is in lower case.
   */
  lemma FetchFindsIffLowerCase(v: Rules, s: State, now: u64, t: Text)
    requires Reachable.Genuine(v, s)
    ensures Status(v, s, now, PostKeyPackage(t)) == 204 ==>
              (Latest(Serve(v, s, now, PostKeyPackage(t)).0.keypackages, t.key).Some? <==> Hex.LowerAll(t.key) == t.key)
    ensures Status(v, s, now, PostAccount(t)) == 204 ==>
              (t.key in Serve(v, s, now, PostAccount(t)).0.accounts <==> Hex.LowerAll(t.key) == t.key)
  {
    GenuineAfter(v, s, now, PostKeyPackage(t));
    GenuineAfter(v, s, now, PostAccount(t));
    if Hex.LowerAll(t.key) != t.key {
      Reachable.UpperCaseFindsNothing(v, Serve(v, s, now, PostKeyPackage(t)).0, t.key);
      Reachable.UpperCaseFindsNothing(v, Serve(v, s, now, PostAccount(t)).0, t.key);
    } else if DecodeText(t).Ok? {
      var f := DecodeText(t).value;
      DecodeIffSpells(t, f);
      FoundInLowerCase(v, s, now, t, f);
    }
  }

  lemma GenuineAfter(v: Rules, s: State, now: u64, r: Request)
    requires Reachable.Genuine(v, s)
    ensures Reachable.Genuine(v, Serve(v, s, now, r).0)
  {
    if Admit(v, r).Ok? {
      AdmitsOnlyVerified(v, now, r);
      Reachable.GenuineStep(v, s, Event(now, Admit(v, r).value));
    }
  }

  lemma FoundInLowerCase(v: Rules, s: State, now: u64, t: Text, f: Fields)
    requires Spells(t, f) && Hex.LowerAll(t.key) == t.key
    ensures Status(v, s, now, PostKeyPackage(t)) == 204 ==>
              Latest(Serve(v, s, now, PostKeyPackage(t)).0.keypackages, t.key).Some?
    ensures Status(v, s, now, PostAccount(t)) == 204 ==> t.key in Serve(v, s, now, PostAccount(t)).0.accounts
  {
    if Status(v, s, now, PostKeyPackage(t)) == 204 {
      KeyPackageStatus(v, s, now, t, f);
      assert RowId(t.key, AsI64(now)) in Rows(Serve(v, s, now, PostKeyPackage(t)).0.keypackages, t.key);
    }
    DecodeIffSpells(t, f);
    AdmitAccountIffSound(v, f);
  }

  /**
   The replay guard does not outlive the row. Take any account without a row and two sound bundles of it: publish
   the higher lamport, prune once the row's time is past the cutoff, and the lower lamport is accepted and stored.
   */
  lemma DowngradeAfterPrune(v: Rules, s: State, hi: Fields, lo: Fields, at: u64, later: u64, retention: u64)
    requires Sound(v, hi) && Sound(v, lo) && hi.key == lo.key && Hex.Encode(hi.key) !in s.accounts
    requires Header.PayloadLamport(lo.payload).value < Header.PayloadLamport(hi.payload).value
    requires AsI64(at) < Retention.Cutoff(later, retention)
    ensures var name := Hex.Encode(hi.key);
            var first := Serve(v, s, at, DeliverAccount(hi));
            var pruned := Next(v, first.0, Event(later, ExpireAccounts(retention)));
            var replay := Serve(v, pruned, later, DeliverAccount(lo));
            && Serve(v, first.0, later, DeliverAccount(lo)) == (first.0, Err(Stale))
            && first.1 == Ok(()) && first.0.accounts[name] == AccountRow(hi.payload, hi.signature, AsI64(at))
            && replay.1 == Ok(()) && replay.0.accounts[name] == AccountRow(lo.payload, lo.signature, AsI64(later))
  {
    AdmitAccountIffSound(v, hi);
    AdmitAccountIffSound(v, lo);
  }

  /** The canonical payloads give such bundles for any two lamports, whenever the key holder can sign them. */
  lemma DowngradePossible(v: Rules, k: Key, s1: Signature, s2: Signature, hi: u64, lo: u64)
    requires lo < hi && v.validKey(k)
    requires v.verifies(k, Header.Compose(1, hi, []), s1) && v.verifies(k, Header.Compose(1, lo, []), s2)
    ensures Sound(v, Fields(k, Header.Compose(1, hi, []), s1)) && Sound(v, Fields(k, Header.Compose(1, lo, []), s2))
    ensures Serve(v, EMPTY, 0, DeliverAccount(Fields(k, Header.Compose(1, hi, []), s1))).1 == Ok(())
    ensures var stored := Serve(v, EMPTY, 0, DeliverAccount(Fields(k, Header.Compose(1, hi, []), s1))).0;
            var pruned := Next(v, stored, Event(1, ExpireAccounts(0)));
            Serve(v, pruned, 1, DeliverAccount(Fields(k, Header.Compose(1, lo, []), s2))).1 == Ok(())
  {
    Header.LamportOfComposed(1, hi, []);
    Header.LamportOfComposed(1, lo, []);
    var f, g := Fields(k, Header.Compose(1, hi, []), s1), Fields(k, Header.Compose(1, lo, []), s2);
    DowngradeAfterPrune(v, EMPTY, f, g, 0, 1, 0);
  }

  /** Only the lower-case hex of a valid key is an address, and it is the address of that key. */
  lemma ParseAddrIff(v: Rules, text: string, k: Key)
    ensures ParseAddr(v, text) == Some(k) <==> v.validKey(k) && text == Hex.Encode(k)
  {
    Reachable.KeyOfEncoded(k);
  }

  predicate Addresses(v: Rules, addr: string, k: Key) {
    v.validKey(k) && addr == Hex.Encode(k)
  }

  /** The body is a signature and a payload, authentic under the key the address names. */
  ghost predicate AuthenticBody(v: Rules, addr: string, body: Bytes) {
    |body| >= 64 && exists k: Key :: Addresses(v, addr, k) && Authentic(v, k, body[..64], body[64..])
  }

  /** `ParseAddrIff` for every key at once. */
  lemma ParseAddrAll(v: Rules, addr: string)
    ensures forall k: Key :: Addresses(v, addr, k) <==> ParseAddr(v, addr) == Some(k)
  {
    forall k: Key
      ensures Addresses(v, addr, k) <==> ParseAddr(v, addr) == Some(k)
    {
      ParseAddrIff(v, addr, k);
    }
  }

  /** A log publish is refused before the store is reached for exactly three reasons, checked in this order. */
  lemma LogRefusal(v: Rules, addr: string, body: Bytes)
    ensures Admit(v, PostLog(addr, body)) == Err(Invalid(AddressNotValid))
            <==> !exists k: Key :: Addresses(v, addr, k)
    ensures Admit(v, PostLog(addr, body)) == Err(Invalid(SignatureFails))
            <==> |body| >= 64 && exists k: Key :: Addresses(v, addr, k) && !v.verifies(k, body[64..], body[..64])
    ensures Admit(v, PostLog(addr, body)) == Err(MalformedLog)
            <==> exists k: Key :: Addresses(v, addr, k)
                   && (|body| < 64 || (v.verifies(k, body[64..], body[..64]) && !v.decodesLog(body[64..])))
    ensures Admit(v, PostLog(addr, body)).Ok? <==> AuthenticBody(v, addr, body)
  {
    ParseAddrAll(v, addr);
  }

  /** The log on file, if there is one, is a prefix of `payload`. */
  predicate Continues(s: State, addr: string, payload: Bytes) {
    Logs.Stored(s, addr).Some? ==> Logs.Stored(s, addr).value <= payload
  }

  /**
   A log publish answers 204 exactly when the log is authentic under its address and the stored payload, if any,
   is a prefix of its own; 409 when it is authentic and that fails; 400 when it is not authentic; never 500.
   */
  lemma LogPublish(v: Rules, s: State, now: u64, addr: string, body: Bytes)
    requires Reachable.Genuine(v, s)
    ensures Status(v, s, now, PostLog(addr, body)) ==
            if !AuthenticBody(v, addr, body) then 400 else if Continues(s, addr, body[64..]) then 204 else 409
  {
    LogRefusal(v, addr, body);
    LogReply(v, s, now, addr, body);
  }

  /** The publish ends in `reply`, as the log on file decides it. */
  ghost predicate LogRepliedWith(v: Rules, s: State, addr: string, body: Bytes, reply: Result<(), BundleError>) {
    var stored := Logs.Stored(s, addr);
    && reply != Err(Internal)
    && (reply == Ok(()) <==> AuthenticBody(v, addr, body) && Continues(s, addr, body[64..]))
    && (reply == Err(Stale) <==> AuthenticBody(v, addr, body) && stored.Some? && body[64..] < stored.value)
    && (reply == Err(Forked) <==>
        AuthenticBody(v, addr, body) && stored.Some? && !(body[64..] <= stored.value) && !(stored.value <= body[64..]))
  }

  /**
   The two conflicts told apart: an authentic log is stale exactly when it is a strict prefix of the one on file,
   and a fork exactly when neither is a prefix of the other.
   */
  lemma LogReply(v: Rules, s: State, now: u64, addr: string, body: Bytes)
    requires Reachable.Genuine(v, s)
    ensures LogRepliedWith(v, s, addr, body, Serve(v, s, now, PostLog(addr, body)).1)
  {
    ParseAddrAll(v, addr);
    LogRefusal(v, addr, body);
    if AuthenticBody(v, addr, body) {
      var k: Key :| Addresses(v, addr, k) && Authentic(v, k, body[..64], body[64..]);
      var c := AccountRecord(k, body[..64], body[64..]);
      assert Admit(v, PostLog(addr, body)) == Ok(PutLog(c));
      JudgedByStored(v, s, now, c);
    }
  }

  lemma JudgedByStored(v: Rules, s: State, now: u64, c: AccountRecord)
    requires Reachable.Genuine(v, s) && Logs.Admissible(v, c)
    ensures Answer(v, s, Event(now, PutLog(c))) ==
            Compared(match Logs.Stored(s, c.Account()) case None => Updated case Some(p) => Relate(p, c.payload))
  {
    Reachable.DefensiveBranchesDead(v, s, Event(now, PutLog(c)));
    if c.Account() in s.logs {
      assert Reachable.GenuineLog(v, c.Account(), s.logs[c.Account()].signedLog);
    }
  }

  // ---- two wires ----

  /** The raw fields of a bundle submission on either wire, when its text can be read. */
  function Raw(r: Request): Option<Fields> {
    match r
    case PostKeyPackage(t) => (match DecodeText(t) case Ok(f) => Some(f) case Err(_) => None)
    case PostAccount(t) => (match DecodeText(t) case Ok(f) => Some(f) case Err(_) => None)
    case DeliverKeyPackage(f) => Some(f)
    case DeliverAccount(f) => Some(f)
    case PostLog(_, _) => None
  }

  predicate ForKeyPackage(r: Request) {
    r.PostKeyPackage? || r.DeliverKeyPackage?
  }

  /** The same submission, on the same or on the other wire. */
  predicate SameSubmission(r: Request, q: Request) {
    r == q || (Raw(r).Some? && Raw(r) == Raw(q) && (ForKeyPackage(r) <==> ForKeyPackage(q)))
  }

  lemma WiresAgree(v: Rules, r: Request, q: Request)
    requires SameSubmission(r, q)
    ensures Admit(v, r) == Admit(v, q)
  {
  }

  /** A JSON body that reads is served as the same fields delivered raw; one that does not read changes nothing. */
  lemma ServeAccountText(v: Rules, s: State, now: u64, t: Text)
    ensures match DecodeText(t)
            case Ok(f) => Serve(v, s, now, PostAccount(t)) == Serve(v, s, now, DeliverAccount(f))
            case Err(e) => Serve(v, s, now, PostAccount(t)) == (s, Err(e))
  {
  }

  lemma ServeBadFields(v: Rules, s: State, now: u64, f: Fields)
    requires FromBytes(f).Err?
    ensures Serve(v, s, now, DeliverAccount(f)) == (s, Err(FromBytes(f).error))
  {
  }

  /** Any fields travel on both wires: in every casing of the key on one, raw on the other. */
  lemma BothWiresCarry(t: Text, f: Fields)
    ensures SameSubmission(PostKeyPackage(t), DeliverKeyPackage(f)) <==> Spells(t, f)
    ensures SameSubmission(PostAccount(t), DeliverAccount(f)) <==> Spells(t, f)
    ensures Spells(Text(Hex.Encode(f.key), Base64.Encode(f.payload), Base64.Encode(f.signature)), f)
  {
    DecodeIffSpells(t, f);
    Hex.EncodeIsLower(f.key);
  }

  // ---- whole runs of the service ----

  datatype Work = Publish(request: Request) | PruneKeyPackages(cap: u64, retention: u64) | PruneAccounts(retention: u64)

  /** A piece of work and the clock reading it takes under the lock. */
  datatype Arrival = Arrival(now: u64, work: Work)

  /** The atomic events one arrival amounts to. */
  function EventsOf(v: Rules, a: Arrival): seq<Event> {
    match a.work
    case Publish(r) => (match Admit(v, r) case Ok(action) => [Event(a.now, action)] case Err(_) => [])
    case PruneKeyPackages(cap, retention) => Schedule.PruneEvents(a.now, retention, cap)
    case PruneAccounts(retention) => [Event(a.now, ExpireAccounts(retention))]
  }

  function AllEvents(v: Rules, arrivals: seq<Arrival>): seq<Event>
    decreases |arrivals|
  {
    if arrivals == [] then []
    else AllEvents(v, arrivals[..|arrivals| - 1]) + EventsOf(v, arrivals[|arrivals| - 1])
  }

  /** Serving a request is running its events. */
  lemma ServeRuns(v: Rules, s: State, now: u64, r: Request)
    ensures Serve(v, s, now, r).0 == RunFrom(v, s, EventsOf(v, Arrival(now, Publish(r))))
  {
  }

  /**
   Every run of the service is a run of admitted events, so it starts and stays genuine, passes honest lamports
   and verified logs to the store, and all that is proved of such histories holds of it.
   */
  lemma {:induction false} ServiceRuns(v: Rules, arrivals: seq<Arrival>)
    ensures Reachable.AllAdmitted(v, AllEvents(v, arrivals))
    ensures Reachable.Genuine(v, Run(v, AllEvents(v, arrivals)))
    ensures Accounts.HonestLamports(AllEvents(v, arrivals)) && Logs.Verified(v, AllEvents(v, arrivals))
    decreases |arrivals|
  {
    if arrivals != [] {
      ServiceRuns(v, arrivals[..|arrivals| - 1]);
      var a := arrivals[|arrivals| - 1];
      if a.work.Publish? && Admit(v, a.work.request).Ok? {
        AdmitsOnlyVerified(v, a.now, a.work.request);
      }
      assert forall e :: e in EventsOf(v, a) ==> Reachable.Admitted(v, e);
    }
    Reachable.GenuineRun(v, EMPTY, AllEvents(v, arrivals));
    forall i | 0 <= i < |AllEvents(v, arrivals)|
      ensures Reachable.Admitted(v, AllEvents(v, arrivals)[i])
    {
    }
  }

  /**
   What an arrival does to the tables: a publish is served, a prune of the accounts deletes exactly the rows older
   than its cutoff, a prune of the keypackages those and the ones with `cap` rows of their device above them.
   */
  ghost predicate Effect(v: Rules, before: State, after: State, a: Arrival) {
    match a.work
    case Publish(request) => after == Serve(v, before, a.now, request).0
    case PruneAccounts(retention) =>
      && after.keypackages == before.keypackages && after.logs == before.logs
      && AccountsSince(before.accounts, after.accounts, Retention.Cutoff(a.now, retention))
    case PruneKeyPackages(cap, retention) =>
      && after.accounts == before.accounts && after.logs == before.logs
      && NewestSince(before.keypackages, after.keypackages, Retention.Cutoff(a.now, retention), AsI64(cap))
  }

  /** One more arrival has its effect on the tables the earlier ones left, and no arrivals have none. */
  lemma ServiceStep(v: Rules, s: State, xs: seq<Arrival>, a: Arrival)
    ensures AllEvents(v, []) == []
    ensures Effect(v, RunFrom(v, s, AllEvents(v, xs)), RunFrom(v, s, AllEvents(v, xs + [a])), a)
  {
    var before := RunFrom(v, s, AllEvents(v, xs));
    assert (xs + [a])[..|xs|] == xs;
    RunConcat(v, s, AllEvents(v, xs), EventsOf(v, a));
    match a.work {
      case Publish(r) => ServeRuns(v, before, a.now, r);
      case PruneAccounts(retention) => RunSnoc(v, before, [], Event(a.now, ExpireAccounts(retention)));
      case PruneKeyPackages(cap, retention) =>
        Schedule.RunPrune(v, before, [], a.now, retention, cap);
        assert [] + EventsOf(v, a) == EventsOf(v, a);
        PruneIsNewestSince(before.keypackages, Retention.Cutoff(a.now, retention), AsI64(cap));
    }
  }

  /** `after` holds exactly the rows of `before` that are not older than the cutoff. */
  ghost predicate AccountsSince(before: map<string, AccountRow>, after: map<string, AccountRow>, cutoff: int) {
    && (forall name :: name in after <==> name in before && before[name].updatedAt >= cutoff)
    && (forall name :: name in after ==> after[name] == before[name])
  }

  /** `after` holds exactly the rows of `before` that are not older and have fewer than `cap` newer ones beside them. */
  ghost predicate NewestSince(before: History, after: History, cutoff: int, cap: int) {
    && (forall id :: id in after <==>
          id in before && id.receivedAt >= cutoff && |KeyPackages.Newer(before, id)| < cap)
    && (forall id :: id in after ==> after[id] == before[id])
  }

  lemma PruneIsNewestSince(t: History, cutoff: int, cap: int)
    ensures NewestSince(t, KeyPackages.Prune(t, cutoff, cap), cutoff, cap)
  {
    forall id
      ensures id in KeyPackages.Prune(t, cutoff, cap) <==>
              id in t && id.receivedAt >= cutoff && |KeyPackages.Newer(t, id)| < cap
      ensures id in KeyPackages.Prune(t, cutoff, cap) ==> KeyPackages.Prune(t, cutoff, cap)[id] == t[id]
    {
      KeyPackages.PruneMember(t, cutoff, cap, id);
    }
  }

  predicate SameArrival(a: Arrival, b: Arrival) {
    && a.now == b.now
    && (a.work == b.work
        || (a.work.Publish? && b.work.Publish? && SameSubmission(a.work.request, b.work.request)))
  }

  /** Moving any submissions of a run from one wire to the other changes no table. */
  lemma {:induction false} WireIndependence(v: Rules, xs: seq<Arrival>, ys: seq<Arrival>)
    requires |xs| == |ys| && forall i :: 0 <= i < |xs| ==> SameArrival(xs[i], ys[i])
    ensures AllEvents(v, xs) == AllEvents(v, ys)
    ensures Run(v, AllEvents(v, xs)) == Run(v, AllEvents(v, ys))
    decreases |xs|
  {
    if xs != [] {
      var n := |xs| - 1;
      WireIndependence(v, xs[..n], ys[..n]);
      if xs[n].work != ys[n].work {
        WiresAgree(v, xs[n].work.request, ys[n].work.request);
      }
      assert SameArrival(xs[n], ys[n]);
    }
  }

  /** In particular, at any place of any run a JSON body and the raw fields it spells can stand for each other. */
  lemma EitherWire(v: Rules, before: seq<Arrival>, now: u64, t: Text, f: Fields, after: seq<Arrival>)
    requires Spells(t, f)
    ensures Run(v, AllEvents(v, before + [Arrival(now, Publish(PostAccount(t)))] + after)) ==
            Run(v, AllEvents(v, before + [Arrival(now, Publish(DeliverAccount(f)))] + after))
    ensures Run(v, AllEvents(v, before + [Arrival(now, Publish(PostKeyPackage(t)))] + after)) ==
            Run(v, AllEvents(v, before + [Arrival(now, Publish(DeliverKeyPackage(f)))] + after))
  {
    BothWiresCarry(t, f);
    WireIndependence(v, before + [Arrival(now, Publish(PostAccount(t)))] + after,
                     before + [Arrival(now, Publish(DeliverAccount(f)))] + after);
    WireIndependence(v, before + [Arrival(now, Publish(PostKeyPackage(t)))] + after,
                     before + [Arrival(now, Publish(DeliverKeyPackage(f)))] + after);
  }
}
