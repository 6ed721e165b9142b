/** Base64 of section 4 of RFC 4648, standing in for Convert.ToBase64String and
    Convert.FromBase64String: every 3 octets become 4 digits of 6 bits each, and a
    final group of 1 or 2 octets is completed with "==" or "=". */
module Base64 {
  import opened Text

  /** A digit of the standard alphabet A-Z a-z 0-9 + /. */
  predicate IsDigit(c: Unit) {
    0x41 <= c <= 0x5A || 0x61 <= c <= 0x7A || 0x30 <= c <= 0x39 || c == 0x2B || c == SLASH
  }

  /** The digit that stands for a 6-bit value. */
  function Digit(v: nat): (c: Unit)
    requires v < 64
    ensures IsDigit(c)
  {
    if v < 26 then 0x41 + v
    else if v < 52 then 0x61 + (v - 26)
    else if v < 62 then 0x30 + (v - 52)
    else if v == 62 then 0x2B
    else SLASH
  }

  /** The 6-bit value of a digit; Digit is its inverse. */
  function ValueOf(c: Unit): (v: nat)
    requires IsDigit(c)
    ensures v < 64 && Digit(v) == c
  {
    if c <= 0x2B then 62
    else if c == SLASH then 63
    else if c <= 0x39 then c - 0x30 + 52
    else if c <= 0x5A then c - 0x41
    else c - 0x61 + 26
  }

  /** Every value has its own digit. */
  lemma DigitValue(v: nat)
    requires v < 64
    ensures ValueOf(Digit(v)) == v
  {
  }

  /** The four digits of three octets. */
  function Quantum(x: Byte, y: Byte, z: Byte): seq<Unit> {
    [Digit(x / 4), Digit(x % 4 * 16 + y / 16), Digit(y % 16 * 4 + z / 64), Digit(z % 64)]
  }

  /** The digits of Convert.ToBase64String without the "=" padding. */
  function EncodeDigits(b: seq<Byte>): (s: seq<Unit>)
    decreases |b|, 1
  {
    if |b| == 0 then [] else EncodeGroup(b)
  }

  function EncodeGroup(b: seq<Byte>): (s: seq<Unit>)
    requires |b| > 0
    decreases |b|, 0
  {
    if |b| == 1 then [Digit(b[0] / 4), Digit(b[0] % 4 * 16)]
    else if |b| == 2 then [Digit(b[0] / 4), Digit(b[0] % 4 * 16 + b[1] / 16), Digit(b[1] % 16 * 4)]
    else Quantum(b[0], b[1], b[2]) + EncodeDigits(b[3..])
  }

  /** Three leading octets are one whole group of four digits. */
  lemma EncodeGroups(b: seq<Byte>)
    requires |b| >= 3
    ensures EncodeDigits(b) == Quantum(b[0], b[1], b[2]) + EncodeDigits(b[3..])
  {
    assert EncodeDigits(b) == EncodeGroup(b);
  }

  /** Every 6 bits (the last ones completed with zero bits) give one digit. */
  lemma {:induction false} EncodeDigitsLength(b: seq<Byte>)
    ensures |EncodeDigits(b)| == (8 * |b| + 5) / 6
    decreases |b|
  {
    if |b| >= 3 {
      EncodeDigitsLength(b[3..]);
    }
  }

  /** Every unpadded digit belongs to the alphabet. */
  lemma {:induction false} EncodeDigitsAlphabet(b: seq<Byte>)
    ensures forall i | 0 <= i < |EncodeDigits(b)| :: IsDigit(EncodeDigits(b)[i])
    decreases |b|
  {
    if |b| >= 3 {
      EncodeDigitsAlphabet(b[3..]);
      var q, rest := Quantum(b[0], b[1], b[2]), EncodeDigits(b[3..]);
      assert EncodeDigits(b) == q + rest;
      assert forall i | 0 <= i < |q| :: IsDigit(q[i]);
    }
  }

  /** How many "=" complete the last group of n octets. */
  function PadLength(n: nat): (p: nat)
  {
    (3 - n % 3) % 3
  }

  function Pad(p: nat): (s: seq<Unit>)
    ensures |s| == p
  {
    seq(p, _ => EQUALS)
  }

  /** Convert.ToBase64String: digits followed by the padding, a whole number of 4-digit groups. */
  function Encode(b: seq<Byte>): (s: seq<Unit>)
    ensures |s| % 4 == 0 && |s| == (|b| + 2) / 3 * 4
    ensures forall i | 0 <= i < |s| :: IsDigit(s[i]) || s[i] == EQUALS
  {
    EncodeDigitsLength(b);
    GroupCount(|b|);
    EncodeDigitsAlphabet(b);
    EncodeDigits(b) + Pad(PadLength(|b|))
  }

  /** The padding makes up a whole number of groups of four. */
  lemma EncodeLength(b: seq<Byte>)
    ensures PadLength(|b|) < 3 && (|b| + PadLength(|b|)) % 3 == 0
  {
    GroupCount(|b|);
  }

  /** n octets: ceil(8n/6) digits and the padding fill ceil(n/3) groups of four. */
  lemma GroupCount(n: nat)
    ensures PadLength(n) < 3 && (n + PadLength(n)) % 3 == 0
    ensures (8 * n + 5) / 6 + PadLength(n) == (n + 2) / 3 * 4
    ensures (n + 2) / 3 * 4 % 4 == 0
  {
    var q, r := n / 3, n % 3;
    assert 8 * n + 5 == 6 * (4 * q) + (8 * r + 5);
    assert n + 2 == 3 * q + (r + 2);
  }

  /** A group of four digits decodes to three octets. */
  function DecodeQuantum(a: Unit, b: Unit, c: Unit, d: Unit): (r: Result<seq<Byte>>)
    ensures r.Ok? <==> IsDigit(a) && IsDigit(b) && IsDigit(c) && IsDigit(d)
    ensures r.Ok? ==> |r.value| == 3
  {
    if IsDigit(a) && IsDigit(b) && IsDigit(c) && IsDigit(d) then
      var va, vb, vc, vd := ValueOf(a), ValueOf(b), ValueOf(c), ValueOf(d);
      Ok([va * 4 + vb / 16, vb % 16 * 16 + vc / 4, vc % 4 * 64 + vd])
    else FormatError
  }

  /** The last group, which may end in "==" (one octet) or "=" (two octets). */
  function DecodeFinal(a: Unit, b: Unit, c: Unit, d: Unit): (r: Result<seq<Byte>>)
    ensures r.Ok? ==> IsDigit(a) && IsDigit(b)
    ensures r.Ok? ==> (IsDigit(c) || c == EQUALS) && (IsDigit(d) || d == EQUALS)
    ensures r.Ok? ==> |r.value| == 3 - (if c == EQUALS then 2 else if d == EQUALS then 1 else 0)
  {
    if c == EQUALS && d == EQUALS then
      if IsDigit(a) && IsDigit(b) then Ok([ValueOf(a) * 4 + ValueOf(b) / 16]) else FormatError
    else if d == EQUALS then
      if IsDigit(a) && IsDigit(b) && IsDigit(c) then
        var va, vb, vc := ValueOf(a), ValueOf(b), ValueOf(c);
        Ok([va * 4 + vb / 16, vb % 16 * 16 + vc / 4])
      else FormatError
    else DecodeQuantum(a, b, c, d)
  }

  /** Convert.FromBase64String: a whole number of groups (checked group by group), "=" only at the end of the last one,
      every other character a digit of the alphabet. */
  function Decode(s: seq<Unit>): (r: Result<seq<Byte>>)
    ensures r.Ok? ==> |s| % 4 == 0
    decreases |s|, 1
  {
    if s == [] then Ok([]) else DecodeGroups(s)
  }

  function DecodeGroups(s: seq<Unit>): (r: Result<seq<Byte>>)
    requires s != []
    ensures r.Ok? ==> |s| % 4 == 0
    decreases |s|, 0
  {
    if |s| < 4 then FormatError
    else if |s| == 4 then DecodeFinal(s[0], s[1], s[2], s[3])
    else
      match DecodeQuantum(s[0], s[1], s[2], s[3])
      case FormatError => FormatError
      case Ok(q) =>
        match Decode(s[4..])
        case FormatError => FormatError
        case Ok(rest) => Ok(q + rest)
  }

  /** Decode accepts nothing but digits of the alphabet and "=". */
  lemma {:induction false} DecodeAlphabet(s: seq<Unit>)
    ensures Decode(s).Ok? ==> forall i | 0 <= i < |s| :: IsDigit(s[i]) || s[i] == EQUALS
    decreases |s|
  {
    if s != [] && Decode(s).Ok? {
      assert Decode(s) == DecodeGroups(s);
      if |s| > 4 {
        DecodeAlphabet(s[4..]);
        assert forall i | 4 <= i < |s| :: s[i] == s[4..][i - 4];
      }
    }
  }

  /** The upper 2 bits of a 6-bit value a*16 + b with b < 16. */
  lemma Split16(a: nat, b: nat)
    requires b < 16
    ensures (a * 16 + b) / 16 == a && (a * 16 + b) % 16 == b
  {
  }

  /** The upper 4 bits of a 6-bit value a*4 + b with b < 4. */
  lemma Split4(a: nat, b: nat)
    requires b < 4
    ensures (a * 4 + b) / 4 == a && (a * 4 + b) % 4 == b
  {
  }

  lemma QuantumRoundTrip(x: Byte, y: Byte, z: Byte)
    ensures var q := Quantum(x, y, z); DecodeQuantum(q[0], q[1], q[2], q[3]) == Ok([x, y, z])
  {
    var v0, v1, v2, v3 := x / 4, x % 4 * 16 + y / 16, y % 16 * 4 + z / 64, z % 64;
    DigitValue(v0);
    DigitValue(v1);
    DigitValue(v2);
    DigitValue(v3);
    Split16(x % 4, y / 16);
    Split4(y % 16, z / 64);
  }

  /** A last group of one octet, "xy==", decodes to that octet. */
  lemma OneOctetRoundTrip(x: Byte)
    ensures Decode(Encode([x])) == Ok([x])
  {
    var s := Encode([x]);
    DigitValue(x / 4);
    DigitValue(x % 4 * 16);
    Split16(x % 4, 0);
    assert EncodeDigits([x]) == [Digit(x / 4), Digit(x % 4 * 16)];
    assert s == [Digit(x / 4), Digit(x % 4 * 16), EQUALS, EQUALS];
  }

  /** A last group of two octets, "xyz=", decodes to those octets. */
  lemma TwoOctetsRoundTrip(x: Byte, y: Byte)
    ensures Decode(Encode([x, y])) == Ok([x, y])
  {
    var s := Encode([x, y]);
    DigitValue(x / 4);
    DigitValue(x % 4 * 16 + y / 16);
    DigitValue(y % 16 * 4);
    Split16(x % 4, y / 16);
    Split4(y % 16, 0);
    assert EncodeDigits([x, y]) == [Digit(x / 4), Digit(x % 4 * 16 + y / 16), Digit(y % 16 * 4)];
    assert s == [Digit(x / 4), Digit(x % 4 * 16 + y / 16), Digit(y % 16 * 4), EQUALS];
  }

  /** Three leading octets contribute one whole group to the front of the encoding. */
  lemma EncodeQuantum(b: seq<Byte>)
    requires |b| >= 3
    ensures Encode(b) == Quantum(b[0], b[1], b[2]) + Encode(b[3..])
  {
    assert PadLength(|b|) == PadLength(|b| - 3);
    EncodeGroups(b);
  }

  /** A leading group of four digits is decoded on its own, ahead of the rest. */
  lemma DecodeQuantumFirst(q: seq<Unit>, t: seq<Unit>, x: seq<Byte>, y: seq<Byte>)
    requires |q| == 4 && |t| > 0
    requires DecodeQuantum(q[0], q[1], q[2], q[3]) == Ok(x) && Decode(t) == Ok(y)
    ensures Decode(q + t) == Ok(x + y)
  {
    var s := q + t;
    assert s[0] == q[0] && s[1] == q[1] && s[2] == q[2] && s[3] == q[3];
    assert s[4..] == t;
  }

  /** One whole leading group: if the rest round-trips, so does the whole. */
  lemma RoundTripStep(b: seq<Byte>)
    requires |b| >= 3
    requires Decode(Encode(b[3..])) == Ok(b[3..])
    ensures Decode(Encode(b)) == Ok(b)
  {
    QuantumRoundTrip(b[0], b[1], b[2]);
    EncodeQuantum(b);
    if |b| == 3 {
      assert b == [b[0], b[1], b[2]];
      assert Encode(b) == Quantum(b[0], b[1], b[2]) + [];
    } else {
      DecodeQuantumFirst(Quantum(b[0], b[1], b[2]), Encode(b[3..]), [b[0], b[1], b[2]], b[3..]);
      assert b == [b[0], b[1], b[2]] + b[3..];
    }
  }

  /** Decoding what Convert.ToBase64String produced gives the octets back. */
  lemma {:induction false} RoundTrip(b: seq<Byte>)
    ensures Decode(Encode(b)) == Ok(b)
    decreases |b|
  {
    if |b| == 1 {
      assert b == [b[0]];
      OneOctetRoundTrip(b[0]);
    } else if |b| == 2 {
      assert b == [b[0], b[1]];
      TwoOctetsRoundTrip(b[0], b[1]);
    } else if |b| >= 3 {
      RoundTrip(b[3..]);
      RoundTripStep(b);
    }
  }
}
