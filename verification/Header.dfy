/** The header the store reads out of a v0 account payload: `domain | version: u8 | lamport: u64 LE | ...`. */
module Header {
  import opened Basics

  /** ASCII of "libchat:account-device-bundle" and a NUL. */
  const DOMAIN: Bytes := [
    0x6C, 0x69, 0x62, 0x63, 0x68, 0x61, 0x74, 0x3A, 0x61, 0x63, 0x63, 0x6F, 0x75, 0x6E, 0x74, 0x2D,
    0x64, 0x65, 0x76, 0x69, 0x63, 0x65, 0x2D, 0x62, 0x75, 0x6E, 0x64, 0x6C, 0x65, 0x00
  ]

  /** 256 to the `k`. */
  function Base(k: nat): (n: nat)
    ensures n > 0
  {
    if k == 0 then 1 else 256 * Base(k - 1)
  }

  /** The low `k` bytes of `n`, least significant first. */
  function ToLe(n: nat, k: nat): (b: Bytes)
    ensures |b| == k
    decreases k
  {
    if k == 0 then [] else [(n % 256) as uint8] + ToLe(n / 256, k - 1)
  }

  function FromLe(b: Bytes): (n: nat)
    ensures n < Base(|b|)
  {
    if b == [] then 0 else b[0] as nat + 256 * FromLe(b[1..])
  }

  lemma {:induction false} FromToLe(n: nat, k: nat)
    requires n < Base(k)
    ensures FromLe(ToLe(n, k)) == n
    decreases k
  {
    if k > 0 {
      FromToLe(n / 256, k - 1);
      assert ToLe(n, k)[1..] == ToLe(n / 256, k - 1);
    }
  }

  lemma {:induction false} ToFromLe(b: Bytes)
    ensures ToLe(FromLe(b), |b|) == b
  {
    if b != [] {
      ToFromLe(b[1..]);
      assert FromLe(b) % 256 == b[0] as nat && FromLe(b) / 256 == FromLe(b[1..]);
      assert b == [b[0]] + b[1..];
    }
  }

  lemma LeStep(b: Bytes, i: nat)
    requires i < |b|
    ensures FromLe(b[i..]) == b[i] as nat + 256 * FromLe(b[i + 1..])
  {
    assert b[i..][1..] == b[i + 1..];
  }

  /** Byte `i` of eight counts 256 to the `i`: the least significant comes first. */
  lemma PlaceValue(b: Bytes)
    requires |b| == 8
    ensures FromLe(b) ==
            b[0] as nat + 0x100 * b[1] as nat + 0x1_0000 * b[2] as nat + 0x100_0000 * b[3] as nat
            + 0x1_0000_0000 * b[4] as nat + 0x100_0000_0000 * b[5] as nat
            + 0x1_0000_0000_0000 * b[6] as nat + 0x100_0000_0000_0000 * b[7] as nat
  {
    assert b[0..] == b;
    LeStep(b, 0);
    LeStep(b, 1);
    LeStep(b, 2);
    LeStep(b, 3);
    LeStep(b, 4);
    LeStep(b, 5);
    LeStep(b, 6);
    LeStep(b, 7);
  }

  lemma Base8()
    ensures Base(8) == TWO64
  {
  }

  function Le64(l: u64): (b: Bytes)
    ensures |b| == 8
  {
    ToLe(l, 8)
  }

  function PayloadLamport(payload: Bytes): (l: Option<u64>)
    ensures l.Some? <==> DOMAIN <= payload && |payload| >= |DOMAIN| + 9
  {
    if DOMAIN <= payload && |payload| >= |DOMAIN| + 9 then
      Base8();
      Some(FromLe(payload[|DOMAIN| + 1..|DOMAIN| + 9]))
    else None
  }

  function Compose(version: uint8, l: u64, suffix: Bytes): Bytes {
    DOMAIN + [version] + Le64(l) + suffix
  }

  /** Reading inverts writing, whatever the version byte and the suffix. */
  lemma LamportOfComposed(version: uint8, l: u64, suffix: Bytes)
    ensures PayloadLamport(Compose(version, l, suffix)) == Some(l)
  {
    var p := Compose(version, l, suffix);
    assert p[..|DOMAIN|] == DOMAIN;
    assert p[|DOMAIN| + 1..|DOMAIN| + 9] == Le64(l);
    Base8();
    FromToLe(l, 8);
  }

  /** A lamport is read exactly from the payloads that carry one in the canonical layout. */
  lemma LamportIffLayout(payload: Bytes, l: u64)
    ensures PayloadLamport(payload) == Some(l)
            <==> exists version, suffix :: payload == Compose(version, l, suffix)
  {
    if PayloadLamport(payload) == Some(l) {
      var n := |DOMAIN|;
      var body := payload[n + 1..n + 9];
      ToFromLe(body);
      assert payload == DOMAIN + [payload[n]] + body + payload[n + 9..];
      assert payload == Compose(payload[n], l, payload[n + 9..]);
    }
    forall version, suffix | payload == Compose(version, l, suffix)
      ensures PayloadLamport(payload) == Some(l)
    {
      LamportOfComposed(version, l, suffix);
    }
  }

  /** The domain as text: its characters and a NUL. */
  predicate OpensWith(payload: Bytes, text: string) {
    |payload| >= |text| && forall i :: 0 <= i < |text| ==> payload[i] as int == text[i] as int
  }

  lemma DomainIsText(payload: Bytes)
    ensures DOMAIN <= payload <==> OpensWith(payload, "libchat:account-device-bundle\0")
  {
    var text := "libchat:account-device-bundle\0";
    assert |text| == |DOMAIN| == 30;
    assert forall i :: 0 <= i < 30 ==> DOMAIN[i] as int == text[i] as int;
    if OpensWith(payload, text) {
      forall i | 0 <= i < 30
        ensures payload[i] == DOMAIN[i]
      {
        assert payload[i] as int == text[i] as int;
      }
      assert payload[..30] == DOMAIN;
    }
  }

  /**
   The lamport is at bytes 31 to 38 of a payload that opens with the domain text, least significant byte first; any
   other payload, and any shorter one, has none.
   */
  lemma LamportByBytes(payload: Bytes, l: u64)
    ensures PayloadLamport(payload) == Some(l) <==>
            && OpensWith(payload, "libchat:account-device-bundle\0") && |payload| >= 39
            && l == payload[31] as nat + 0x100 * payload[32] as nat
                    + 0x1_0000 * payload[33] as nat + 0x100_0000 * payload[34] as nat
                    + 0x1_0000_0000 * payload[35] as nat + 0x100_0000_0000 * payload[36] as nat
                    + 0x1_0000_0000_0000 * payload[37] as nat + 0x100_0000_0000_0000 * payload[38] as nat
  {
    DomainIsText(payload);
    if |payload| >= 39 {
      PlaceValue(payload[31..39]);
    }
  }

  /** Two payloads are equal exactly when all three of their parts are. */
  lemma ComposeInjective(v1: uint8, l1: u64, s1: Bytes, v2: uint8, l2: u64, s2: Bytes)
    requires Compose(v1, l1, s1) == Compose(v2, l2, s2)
    ensures v1 == v2 && l1 == l2 && s1 == s2
  {
    LamportOfComposed(v1, l1, s1);
    LamportOfComposed(v2, l2, s2);
    var n := |DOMAIN|;
    assert Compose(v1, l1, s1)[n] == v1 && Compose(v2, l2, s2)[n] == v2;
    assert Compose(v1, l1, s1)[n + 9..] == s1 && Compose(v2, l2, s2)[n + 9..] == s2;
  }
}
