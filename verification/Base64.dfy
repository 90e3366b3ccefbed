/**
 Base 64 as section 4 of RFC 4648 defines it, read strictly: padding is required and trailing bits must be zero.
 The codec has two layers: octets regroup into sextets, where `PAD` stands for the pad, and sextets spell as text.
 */
module Base64 {
  import opened Basics

  const PAD: nat := 64

  /** A sextet or the pad. */
  type Unit = n: nat | n <= 64

  function Symbol(n: Unit): char {
    if n < 26 then 'A' + n as char
    else if n < 52 then 'a' + (n - 26) as char
    else if n < 62 then '0' + (n - 52) as char
    else if n == 62 then '+'
    else if n == 63 then '/'
    else '='
  }

  function Value(c: char): Option<Unit> {
    if 'A' <= c <= 'Z' then Some((c - 'A') as nat)
    else if 'a' <= c <= 'z' then Some((c - 'a') as nat + 26)
    else if '0' <= c <= '9' then Some((c - '0') as nat + 52)
    else if c == '+' then Some(62)
    else if c == '/' then Some(63)
    else if c == '=' then Some(PAD)
    else None
  }

  lemma ValueIffSymbol(c: char, n: Unit)
    ensures Value(c) == Some(n) <==> c == Symbol(n)
  {
  }

  function Spell(q: seq<Unit>): string {
    seq(|q|, i requires 0 <= i < |q| => Symbol(q[i]))
  }

  function Read(s: string): Option<seq<Unit>> {
    if s == [] then Some([])
    else
      match (Value(s[0]), Read(s[1..]))
      case (Some(n), Some(rest)) => Some([n] + rest)
      case _ => None
  }

  lemma {:induction false} ReadIffSpelled(s: string, q: seq<Unit>)
    ensures Read(s) == Some(q) <==> s == Spell(q)
  {
    if s != [] && q != [] {
      ValueIffSymbol(s[0], q[0]);
      ReadIffSpelled(s[1..], q[1..]);
      assert s == [s[0]] + s[1..];
      assert q == [q[0]] + q[1..];
      assert Spell(q) == [Symbol(q[0])] + Spell(q[1..]);
      if s == Spell(q) {
        assert s[1..] == Spell(q[1..]);
      }
    }
  }

  function Regroup(b: Bytes): seq<Unit> {
    if b == [] then []
    else
      var x := b[0] as nat;
      if |b| == 1 then [x / 4, x % 4 * 16, PAD, PAD]
      else
        var y := b[1] as nat;
        if |b| == 2 then [x / 4, x % 4 * 16 + y / 16, y % 16 * 4, PAD]
        else
          var z := b[2] as nat;
          [x / 4, x % 4 * 16 + y / 16, y % 16 * 4 + z / 64, z % 64] + Regroup(b[3..])
  }

  function Ungroup(q: seq<Unit>): Option<Bytes> {
    if q == [] then Some([])
    else if |q| < 4 || q[0] == PAD || q[1] == PAD then None
    else
      var p: nat, r: nat := q[0], q[1];
      var x := (p * 4 + r / 16) as uint8;
      if |q| == 4 && q[2] == PAD && q[3] == PAD then
        if q[1] % 16 == 0 then Some([x]) else None
      else if q[2] == PAD then None
      else
        var t: nat := q[2];
        var y := (r % 16 * 16 + t / 4) as uint8;
        if |q| == 4 && q[3] == PAD then
          if q[2] % 4 == 0 then Some([x, y]) else None
        else if q[3] == PAD then None
        else
          var u: nat := q[3];
          var z := (t % 4 * 64 + u) as uint8;
          match Ungroup(q[4..])
          case None => None
          case Some(rest) => Some([x, y, z] + rest)
  }

  lemma {:induction false} UngroupRegroup(b: Bytes)
    ensures Ungroup(Regroup(b)) == Some(b)
  {
    if |b| >= 3 {
      UngroupRegroup(b[3..]);
      assert Regroup(b)[4..] == Regroup(b[3..]);
      assert b == [b[0], b[1], b[2]] + b[3..];
    } else if |b| == 2 {
      assert b == [b[0], b[1]];
    } else if |b| == 1 {
      assert b == [b[0]];
    }
  }

  lemma Sextets(p: nat, r: nat, t: nat, u: nat)
    requires p < 64 && r < 64 && t < 64 && u < 64
    ensures var x, y, z := p * 4 + r / 16, r % 16 * 16 + t / 4, t % 4 * 64 + u;
            x / 4 == p && x % 4 * 16 + y / 16 == r && y % 16 * 4 + z / 64 == t && z % 64 == u
            && x % 4 == r / 16 && y % 16 == t / 4
  {
  }

  lemma RegroupTail(q: seq<Unit>)
    requires |q| == 4 && q[3] == PAD && Ungroup(q).Some?
    ensures q == Regroup(Ungroup(q).value)
  {
    assert q == [q[0], q[1], q[2], q[3]];
    Sextets(q[0], q[1], if q[2] == PAD then 0 else q[2], 0);
  }

  lemma {:induction false} RegroupUngroup(q: seq<Unit>)
    requires Ungroup(q).Some?
    ensures q == Regroup(Ungroup(q).value)
  {
    if |q| == 4 && q[3] == PAD {
      RegroupTail(q);
    } else if q != [] {
      RegroupUngroup(q[4..]);
      Sextets(q[0], q[1], q[2], q[3]);
      assert q == [q[0], q[1], q[2], q[3]] + q[4..];
      assert Ungroup(q).value[3..] == Ungroup(q[4..]).value;
    }
  }

  function Encode(b: Bytes): string {
    Spell(Regroup(b))
  }

  // ---- symbol by symbol ----

  lemma SymbolIsUpper(n: nat)
    requires n < 26
    ensures Symbol(n) == "ABCDEFGHIJKLMNOPQRSTUVWXYZ"[n]
  {
  }

  lemma SymbolIsLower(n: nat)
    requires n < 26
    ensures Symbol(26 + n) == "abcdefghijklmnopqrstuvwxyz"[n]
  {
  }

  lemma SymbolIsDigit(n: nat)
    requires n < 10
    ensures Symbol(52 + n) == "0123456789"[n]
  {
  }

  /** The symbols are those of the alphabet, in its order. */
  lemma SymbolOfAlphabet(n: nat)
    requires n < 64
    ensures Symbol(n) == ("ABCDEFGHIJKLMNOPQRSTUVWXYZ" + "abcdefghijklmnopqrstuvwxyz" + "0123456789" + "+/")[n]
  {
    if n < 26 {
      SymbolIsUpper(n);
    } else if n < 52 {
      SymbolIsLower(n - 26);
    } else if n < 62 {
      SymbolIsDigit(n - 52);
    }
  }

  /** Byte `i`, or zero past the end. */
  function ByteAt(b: Bytes, i: nat): (x: nat)
    ensures x < 256
  {
    if i < |b| then b[i] as nat else 0
  }

  /** The four units of the group that starts at byte `j`. */
  function Group(b: Bytes, j: nat): (q: seq<Unit>)
    ensures |q| == 4
  {
    var x, y, z := ByteAt(b, j), ByteAt(b, j + 1), ByteAt(b, j + 2);
    [x / 4, x % 4 * 16 + y / 16,
     if j + 1 < |b| then y % 16 * 4 + z / 64 else PAD, if j + 2 < |b| then z % 64 else PAD]
  }

  lemma ShortGroup(b: Bytes)
    requires 1 <= |b| <= 2
    ensures Regroup(b) == Group(b, 0)
  {
    var x := b[0] as nat;
    assert ByteAt(b, 0) == x && ByteAt(b, 2) == 0;
    if |b| == 1 {
      assert ByteAt(b, 1) == 0;
      assert Group(b, 0) == [x / 4, x % 4 * 16, PAD, PAD];
    } else {
      var y := b[1] as nat;
      assert ByteAt(b, 1) == y;
      assert Group(b, 0) == [x / 4, x % 4 * 16 + y / 16, y % 16 * 4, PAD];
    }
  }

  lemma FullUnits(b: Bytes)
    requires |b| >= 3
    ensures var x, y, z := b[0] as nat, b[1] as nat, b[2] as nat;
            Regroup(b) == [x / 4, x % 4 * 16 + y / 16, y % 16 * 4 + z / 64, z % 64] + Regroup(b[3..])
  {
  }

  lemma GroupOfThree(b: Bytes)
    requires |b| >= 3
    ensures var x, y, z := b[0] as nat, b[1] as nat, b[2] as nat;
            Group(b, 0) == [x / 4, x % 4 * 16 + y / 16, y % 16 * 4 + z / 64, z % 64]
  {
    assert ByteAt(b, 0) == b[0] as nat && ByteAt(b, 1) == b[1] as nat && ByteAt(b, 2) == b[2] as nat;
  }

  lemma FullGroup(b: Bytes)
    requires |b| >= 3
    ensures Regroup(b) == Group(b, 0) + Regroup(b[3..])
  {
    FullUnits(b);
    GroupOfThree(b);
  }

  lemma FirstGroup(b: Bytes)
    requires b != []
    ensures Regroup(b) == Group(b, 0) + if |b| > 3 then Regroup(b[3..]) else []
  {
    if |b| < 3 {
      ShortGroup(b);
    } else {
      FullGroup(b);
    }
  }

  lemma GroupShift(b: Bytes, j: nat)
    requires |b| > 3 && j >= 3
    ensures Group(b, j) == Group(b[3..], j - 3)
  {
    assert ByteAt(b, j) == ByteAt(b[3..], j - 3);
    assert ByteAt(b, j + 1) == ByteAt(b[3..], j - 2);
    assert ByteAt(b, j + 2) == ByteAt(b[3..], j - 1);
  }

  lemma {:induction false} RegroupLength(b: Bytes)
    ensures |Regroup(b)| == (|b| + 2) / 3 * 4
  {
    if b != [] {
      FirstGroup(b);
      if |b| > 3 { RegroupLength(b[3..]); }
    }
  }

  lemma SliceShift(first: seq<Unit>, rest: seq<Unit>, j: nat)
    requires |first| == 4 && 4 <= j && j <= |rest|
    ensures (first + rest)[j..j + 4] == rest[j - 4..j]
  {
  }

  lemma {:induction false} GroupAt(b: Bytes, i: nat)
    requires 3 * i < |b|
    ensures 4 * i + 4 <= |Regroup(b)|
    ensures Regroup(b)[4 * i..4 * i + 4] == Group(b, 3 * i)
  {
    FirstGroup(b);
    if i > 0 {
      GroupAt(b[3..], i - 1);
      GroupShift(b, 3 * i);
      SliceShift(Group(b, 0), Regroup(b[3..]), 4 * i);
    }
  }

  lemma SextetsBelow(x: nat, y: nat, z: nat)
    requires x < 256 && y < 256 && z < 256
    ensures x / 4 < 64 && x % 4 * 16 + y / 16 < 64 && y % 16 * 4 + z / 64 < 64 && z % 64 < 64
  {
  }

  /**
   The text is the three bytes from `j` on, as four symbols of six bits each, most significant first, with one pad
   for each byte that is missing.
   */
  predicate SpellsGroup(t: string, b: Bytes, j: nat) {
    var x, y, z := ByteAt(b, j), ByteAt(b, j + 1), ByteAt(b, j + 2);
    SextetsBelow(x, y, z);
    && |t| == 4
    && t[0] == Symbol(x / 4)
    && t[1] == Symbol(x % 4 * 16 + y / 16)
    && t[2] == (if j + 1 < |b| then Symbol(y % 16 * 4 + z / 64) else '=')
    && t[3] == (if j + 2 < |b| then Symbol(z % 64) else '=')
  }

  /** Every three bytes are four symbols of the alphabet; the last group is padded to four. */
  lemma EncodeByGroups(b: Bytes, i: nat)
    requires 3 * i < |b|
    ensures |Encode(b)| == (|b| + 2) / 3 * 4 && 4 * i + 4 <= |Encode(b)|
    ensures SpellsGroup(Encode(b)[4 * i..4 * i + 4], b, 3 * i)
  {
    RegroupLength(b);
    GroupAt(b, i);
    assert Encode(b)[4 * i..4 * i + 4] == Spell(Regroup(b)[4 * i..4 * i + 4]);
  }

  function Decode(s: string): Option<Bytes> {
    match Read(s)
    case None => None
    case Some(q) => Ungroup(q)
  }

  /** Decoding is the exact inverse of encoding: every byte string has one spelling and no other text decodes. */
  lemma DecodeIffEncoded(s: string, b: Bytes)
    ensures Decode(s) == Some(b) <==> s == Encode(b)
  {
    UngroupRegroup(b);
    ReadIffSpelled(s, Regroup(b));
    if Decode(s) == Some(b) {
      RegroupUngroup(Read(s).value);
    }
  }
}
