/**
 Base 16 as section 8 of RFC 4648 defines it: encoding is lower case, decoding takes either case.
 As in `Base64`, octets split into smaller units and the units spell as text.
 */
module Hex {
  import opened Basics

  type Nibble = n: nat | n < 16

  function Digit(n: Nibble): char {
    if n < 10 then '0' + n as char else 'a' + (n - 10) as char
  }

  predicate IsLowerHex(c: char) {
    '0' <= c <= '9' || 'a' <= c <= 'f'
  }

  function Lower(c: char): char {
    if 'A' <= c <= 'Z' then 'a' + (c - 'A') else c
  }

  function LowerAll(s: string): string {
    seq(|s|, i requires 0 <= i < |s| => Lower(s[i]))
  }

  /** The value of one hex digit of either case. */
  function Value(c: char): Option<Nibble> {
    if '0' <= c <= '9' then Some((c - '0') as nat)
    else if 'a' <= c <= 'f' then Some((c - 'a') as nat + 10)
    else if 'A' <= c <= 'F' then Some((c - 'A') as nat + 10)
    else None
  }

  lemma ValueIffDigit(c: char, n: Nibble)
    ensures Value(c) == Some(n) <==> Lower(c) == Digit(n)
    ensures Lower(Digit(n)) == Digit(n) && IsLowerHex(Digit(n))
  {
  }

  function Spell(q: seq<Nibble>): string {
    seq(|q|, i requires 0 <= i < |q| => Digit(q[i]))
  }

  function Read(s: string): Option<seq<Nibble>> {
    if s == [] then Some([])
    else
      match (Value(s[0]), Read(s[1..]))
      case (Some(n), Some(rest)) => Some([n] + rest)
      case _ => None
  }

  lemma {:induction false} ReadIffCasing(s: string, q: seq<Nibble>)
    ensures Read(s) == Some(q) <==> LowerAll(s) == Spell(q)
  {
    if s != [] && q != [] {
      ValueIffDigit(s[0], q[0]);
      ReadIffCasing(s[1..], q[1..]);
      assert q == [q[0]] + q[1..];
      assert LowerAll(s) == [Lower(s[0])] + LowerAll(s[1..]);
      assert Spell(q) == [Digit(q[0])] + Spell(q[1..]);
      if LowerAll(s) == Spell(q) {
        assert LowerAll(s[1..]) == LowerAll(s)[1..] == Spell(q)[1..] == Spell(q[1..]);
        assert LowerAll(s)[0] == Spell(q)[0];
      }
    } else {
      assert |LowerAll(s)| == |s| && |Spell(q)| == |q|;
    }
  }

  function Split(b: Bytes): (q: seq<Nibble>)
    ensures |q| == 2 * |b|
  {
    if b == [] then [] else [b[0] as nat / 16, b[0] as nat % 16] + Split(b[1..])
  }

  function Join(q: seq<Nibble>): Option<Bytes> {
    if q == [] then Some([])
    else if |q| == 1 then None
    else
      var hi: nat, lo: nat := q[0], q[1];
      match Join(q[2..])
      case None => None
      case Some(rest) => Some([(hi * 16 + lo) as uint8] + rest)
  }

  lemma {:induction false} JoinSplit(b: Bytes)
    ensures Join(Split(b)) == Some(b)
  {
    if b != [] {
      JoinSplit(b[1..]);
      assert Split(b)[2..] == Split(b[1..]);
      assert b == [b[0]] + b[1..];
    }
  }

  lemma {:induction false} SplitJoin(q: seq<Nibble>)
    requires Join(q).Some?
    ensures q == Split(Join(q).value)
  {
    if q != [] {
      SplitJoin(q[2..]);
      assert q == [q[0], q[1]] + q[2..];
      assert Join(q).value[1..] == Join(q[2..]).value;
    }
  }

  function Encode(b: Bytes): string {
    Spell(Split(b))
  }

  /** Fails on an odd length and on any character that is not a hex digit. */
  function Decode(s: string): Option<Bytes> {
    match Read(s)
    case None => None
    case Some(q) => Join(q)
  }

  /** Decoding accepts exactly the casings of the canonical encoding. */
  lemma DecodeIffCasing(s: string, b: Bytes)
    ensures Decode(s) == Some(b) <==> LowerAll(s) == Encode(b)
  {
    JoinSplit(b);
    ReadIffCasing(s, Split(b));
    if Decode(s) == Some(b) {
      SplitJoin(Read(s).value);
    }
  }

  /** The encoding is two lower-case digits a byte. */
  lemma EncodeIsLower(b: Bytes)
    ensures |Encode(b)| == 2 * |b|
    ensures forall i :: 0 <= i < |Encode(b)| ==> IsLowerHex(Encode(b)[i])
    ensures LowerAll(Encode(b)) == Encode(b)
  {
  }

  // ---- digit by digit ----

  lemma {:induction false} SplitAt(b: Bytes, i: nat)
    requires i < |b|
    ensures Split(b)[2 * i] == b[i] as nat / 16 && Split(b)[2 * i + 1] == b[i] as nat % 16
  {
    if i > 0 {
      SplitAt(b[1..], i - 1);
      assert Split(b)[2..] == Split(b[1..]);
      assert Split(b)[2 * i] == Split(b)[2..][2 * (i - 1)];
      assert Split(b)[2 * i + 1] == Split(b)[2..][2 * (i - 1) + 1];
    }
  }

  /** The character is the digit `n` in one case or the other. */
  predicate Spells(c: char, n: Nibble) {
    c == "0123456789abcdef"[n] || c == "0123456789ABCDEF"[n]
  }

  lemma DigitIsLiteral(c: char, n: Nibble)
    ensures Digit(n) == "0123456789abcdef"[n]
    ensures Lower(c) == Digit(n) <==> Spells(c, n)
  {
    if n < 10 {
      assert "0123456789abcdef"[n] == '0' + n as char && "0123456789ABCDEF"[n] == '0' + n as char;
    } else {
      assert "0123456789abcdef"[n] == 'a' + (n - 10) as char && "0123456789ABCDEF"[n] == 'A' + (n - 10) as char;
    }
  }

  /** Each byte is its high and then its low half, as digits of the lower-case alphabet. */
  lemma EncodeByDigits(b: Bytes, i: nat)
    requires i < |b|
    ensures |Encode(b)| == 2 * |b|
    ensures Encode(b)[2 * i] == "0123456789abcdef"[b[i] as nat / 16]
    ensures Encode(b)[2 * i + 1] == "0123456789abcdef"[b[i] as nat % 16]
  {
    SplitAt(b, i);
    DigitIsLiteral('0', b[i] as nat / 16);
    DigitIsLiteral('0', b[i] as nat % 16);
  }

  predicate SpellsByte(hi: char, lo: char, x: uint8) {
    Spells(hi, x as nat / 16) && Spells(lo, x as nat % 16)
  }

  /** A text decodes to given bytes exactly when it spells them, high half first, each digit in either case. */
  lemma DecodeByDigits(s: string, b: Bytes)
    ensures Decode(s) == Some(b) <==>
            |s| == 2 * |b| && forall i :: 0 <= i < |b| ==> SpellsByte(s[2 * i], s[2 * i + 1], b[i])
  {
    DecodeIffCasing(s, b);
    if |s| == 2 * |b| {
      forall i | 0 <= i < |b|
        ensures SpellsByte(s[2 * i], s[2 * i + 1], b[i]) <==>
                LowerAll(s)[2 * i] == Encode(b)[2 * i] && LowerAll(s)[2 * i + 1] == Encode(b)[2 * i + 1]
      {
        SplitAt(b, i);
        DigitIsLiteral(s[2 * i], b[i] as nat / 16);
        DigitIsLiteral(s[2 * i + 1], b[i] as nat % 16);
      }
      PairwiseEqual(LowerAll(s), Encode(b), |b|);
    }
  }

  lemma PairwiseEqual(x: string, y: string, n: nat)
    requires |x| == |y| == 2 * n
    ensures x == y <==> forall i :: 0 <= i < n ==> x[2 * i] == y[2 * i] && x[2 * i + 1] == y[2 * i + 1]
  {
    if forall i :: 0 <= i < n ==> x[2 * i] == y[2 * i] && x[2 * i + 1] == y[2 * i + 1] {
      forall j | 0 <= j < 2 * n
        ensures x[j] == y[j]
      {
        assert j == 2 * (j / 2) || j == 2 * (j / 2) + 1;
      }
    }
  }

  /** Distinct keys get distinct row keys. */
  lemma EncodeInjective(a: Bytes, b: Bytes)
    requires Encode(a) == Encode(b)
    ensures a == b
  {
    EncodeIsLower(a);
    DecodeIffCasing(Encode(a), a);
    DecodeIffCasing(Encode(a), b);
  }
}
