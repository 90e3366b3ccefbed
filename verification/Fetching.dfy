/** The three GETs, and what they return right after a publish. */
module Fetching {
  import opened Basics
  import opened Tables
  import opened Pipeline
  import Base64
  import Hex
  import Logs
  import Reachable

  /** The text of a fetched bundle. */
  datatype Fetched = Fetched(payload: string, signature: string)

  /** The device's newest bundle, or a 404. */
  function FetchKeyPackage(s: State, device: string): Option<Fetched> {
    match Latest(s.keypackages, device)
    case None => None
    case Some(b) => Some(Fetched(Base64.Encode(b.payload), Base64.Encode(b.signature)))
  }

  /** The account's bundle and its time, or a 404. */
  function FetchAccount(s: State, account: string): Option<(Fetched, int)> {
    match Lookup(s.accounts, account)
    case None => None
    case Some(row) => Some((Fetched(Base64.Encode(row.payload), Base64.Encode(row.signature)), row.updatedAt))
  }

  /** The account's log as it is stored, or a 404; a 400 when the address is not one. */
  function FetchLog(v: Rules, s: State, addr: string): Result<Option<Bytes>, BundleError> {
    match ParseAddr(v, addr)
    case None => Err(Invalid(AddressNotValid))
    case Some(k) =>
      match Lookup(s.logs, Hex.Encode(k))
      case None => Ok(None)
      case Some(row) => Ok(Some(row.signedLog))
  }

  /**
   An accepted v0 publish, in whatever casing of the key, is fetched under the lower-case key: the very texts that
   were posted, with the time of the publish.
   */
  lemma AccountRoundTrip(v: Rules, s: State, now: u64, t: Text)
    ensures Status(v, s, now, PostAccount(t)) == 204 ==>
              FetchAccount(Serve(v, s, now, PostAccount(t)).0, Hex.LowerAll(t.key)) ==
              Some((Fetched(t.payload, t.signature), AsI64(now)))
  {
    if Status(v, s, now, PostAccount(t)) == 204 {
      var f := DecodeText(t).value;
      DecodeIffSpells(t, f);
      AdmitAccountIffSound(v, f);
    }
  }

  /** No row of the device is newer than this time. */
  ghost predicate NoneNewer(t: History, device: string, at: int) {
    forall id :: id in Rows(t, device) ==> id.receivedAt <= at
  }

  /**
   An accepted keypackage publish is what the device's next fetch returns, text for text, unless a newer row is
   there already; then the fetch is as before.
   */
  lemma KeyPackageRoundTrip(v: Rules, s: State, now: u64, t: Text)
    ensures Status(v, s, now, PostKeyPackage(t)) == 204 ==>
              FetchKeyPackage(Serve(v, s, now, PostKeyPackage(t)).0, Hex.LowerAll(t.key)) ==
              if NoneNewer(s.keypackages, Hex.LowerAll(t.key), AsI64(now)) then Some(Fetched(t.payload, t.signature))
              else FetchKeyPackage(s, Hex.LowerAll(t.key))
  {
    if Status(v, s, now, PostKeyPackage(t)) == 204 {
      var f := DecodeText(t).value;
      DecodeIffSpells(t, f);
      KeyPackageStatus(v, s, now, t, f);
      LatestAfterInsert(s.keypackages, RowId(Hex.LowerAll(t.key), AsI64(now)), KeyPackage(f.payload, f.signature));
    }
  }

  lemma LatestAfterInsert(t: History, id: RowId, b: KeyPackage)
    requires id !in t
    ensures Latest(t[id := b], id.device) ==
            if NoneNewer(t, id.device, id.receivedAt) then Some(b) else Latest(t, id.device)
  {
    var after := t[id := b];
    assert Rows(after, id.device) == Rows(t, id.device) + {id};
    var top := Newest(after, id.device).value;
    if NoneNewer(t, id.device, id.receivedAt) {
      assert top.receivedAt == id.receivedAt;
    } else {
      var newer :| newer in Rows(t, id.device) && newer.receivedAt > id.receivedAt;
      assert newer.receivedAt <= top.receivedAt;
      assert top != id && top in Rows(t, id.device);
      assert Newest(t, id.device).value.receivedAt == top.receivedAt;
    }
  }

  /** After an accepted log publish the address has that payload; it is the very body, unless it was on file already. */
  lemma LogRoundTrip(v: Rules, s: State, now: u64, addr: string, body: Bytes)
    requires Reachable.Genuine(v, s) && Status(v, s, now, PostLog(addr, body)) == 204
    ensures |body| >= 64
    ensures var fetched := FetchLog(v, Serve(v, s, now, PostLog(addr, body)).0, addr);
            && fetched.Ok? && fetched.value.Some? && |fetched.value.value| >= 64
            && fetched.value.value[64..] == body[64..]
            && (Logs.Stored(s, addr) != Some(body[64..]) ==> fetched.value.value == body)
  {
    ParseAddrAll(v, addr);
    LogRefusal(v, addr, body);
    var k: Key :| Addresses(v, addr, k) && Authentic(v, k, body[..64], body[64..]);
    var c := AccountRecord(k, body[..64], body[64..]);
    assert c.ToBytes() == body;
    Reachable.DefensiveBranchesDead(v, s, Event(now, PutLog(c)));
  }

  /** Text that a fetch returns is base 64 of a bundle that verifies under the key it was asked for. */
  lemma FetchedVerifies(v: Rules, s: State, key: string, text: Fetched)
    requires Reachable.Genuine(v, s)
    requires FetchKeyPackage(s, key) == Some(text) || exists at :: FetchAccount(s, key) == Some((text, at))
    ensures exists payload, signature :: Reachable.Signed(v, key, payload, signature)
              && Base64.Decode(text.payload) == Some(payload) && Base64.Decode(text.signature) == Some(signature)
  {
    var payload, signature;
    if FetchKeyPackage(s, key) == Some(text) {
      var id := Newest(s.keypackages, key).value;
      payload, signature := s.keypackages[id].payload, s.keypackages[id].signature;
      assert Reachable.GenuineBundle(v, id.device, s.keypackages[id]);
    } else {
      payload, signature := s.accounts[key].payload, s.accounts[key].signature;
    }
    Base64.DecodeIffEncoded(text.payload, payload);
    Base64.DecodeIffEncoded(text.signature, signature);
    assert Reachable.Signed(v, key, payload, signature);
  }
}
