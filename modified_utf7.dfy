/** Modified UTF-7, the mailbox-name encoding of section 5.1.3 of RFC 3501: printable
    US-ASCII stands for itself, "&" is written "&-", and every other run of UTF-16 units
    is written "&" + modified BASE64 of its big-endian bytes + "-". Modified BASE64 is the
    base64 of section 4 of RFC 4648 with "," in place of "/" and without "=" padding. */
module ModifiedUtf7 {
  import opened Text
  import Base64

  /** Printable US-ASCII, 0x20 to 0x7E: the units that are written as themselves (save "&"). */
  predicate IsPrintable(c: Unit) {
    0x20 <= c <= 0x7E
  }

  /** A digit of modified BASE64: A-Z a-z 0-9 + and ",". */
  predicate IsModifiedDigit(c: Unit) {
    (Base64.IsDigit(c) && c != SLASH) || c == COMMA
  }

  // ---------------------------------------------------------------------------
  // Modified BASE64
  // ---------------------------------------------------------------------------

  /** ToModifiedBase64: the base64 of the big-endian bytes, "/" replaced by ",", cut at the first "=". */
  function ToModifiedBase64(str: seq<Unit>): (r: seq<Unit>)
    ensures r == Replace(Base64.EncodeDigits(BigEndianBytes(str)), SLASH, COMMA)
  {
    var bytes := BigEndianBytes(str);
    StripPadding(bytes);
    var base64 := Replace(Base64.Encode(bytes), SLASH, COMMA);
    var padding := IndexOf(base64, EQUALS);
    if padding < 0 then base64 else base64[..padding]
  }

  /** Modified BASE64 is the unpadded base64 digits with "/" replaced by ","; every digit is
      printable, and neither "=" nor "-" occurs. */
  lemma ModifiedBase64Digits(str: seq<Unit>)
    ensures ToModifiedBase64(str) == Replace(Base64.EncodeDigits(BigEndianBytes(str)), SLASH, COMMA)
    ensures forall i | 0 <= i < |ToModifiedBase64(str)| ::
      IsModifiedDigit(ToModifiedBase64(str)[i]) && IsPrintable(ToModifiedBase64(str)[i])
    ensures EQUALS !in ToModifiedBase64(str) && HYPHEN !in ToModifiedBase64(str)
  {
    var raw := Base64.EncodeDigits(BigEndianBytes(str));
    StripPadding(BigEndianBytes(str));
    Base64.EncodeDigitsAlphabet(BigEndianBytes(str));
    ReplaceAt(raw, SLASH, COMMA);
    var r := ToModifiedBase64(str);
    assert r == Replace(raw, SLASH, COMMA);
    forall i | 0 <= i < |r| ensures IsModifiedDigit(r[i]) && IsPrintable(r[i]) && r[i] != EQUALS && r[i] != HYPHEN {
      assert Base64.IsDigit(raw[i]);
    }
  }

  /** n units take ceil(16n/6) digits, so a last group is never a single digit. */
  lemma ModifiedBase64Length(str: seq<Unit>)
    ensures |ToModifiedBase64(str)| == (16 * |str| + 5) / 6
    ensures |ToModifiedBase64(str)| % 4 != 1
  {
    var bytes := BigEndianBytes(str);
    ModifiedBase64Digits(str);
    ModifiedLengthNotOne(|str|);
    BigEndianBytesAt(str);
    Base64.EncodeDigitsLength(bytes);
    assert |bytes| == 2 * |str|;
    assert 8 * |bytes| + 5 == 16 * |str| + 5;
  }

  /** Cutting the replaced base64 at its first "=" leaves exactly the replaced digits. */
  lemma StripPadding(bytes: seq<Byte>)
    ensures var base64 := Replace(Base64.Encode(bytes), SLASH, COMMA);
            var padding := IndexOf(base64, EQUALS);
            (if padding < 0 then base64 else base64[..padding]) == Replace(Base64.EncodeDigits(bytes), SLASH, COMMA)
  {
    var raw, pad := Base64.EncodeDigits(bytes), Base64.Pad(Base64.PadLength(|bytes|));
    var digits := Replace(raw, SLASH, COMMA);
    ReplaceAppend(raw, pad, SLASH, COMMA);
    ReplaceAt(pad, SLASH, COMMA);
    assert Replace(pad, SLASH, COMMA) == pad;
    var base64 := digits + pad;
    assert EQUALS !in digits by {
      Base64.EncodeDigitsAlphabet(bytes);
      ReplaceAt(raw, SLASH, COMMA);
      forall i | 0 <= i < |digits| ensures digits[i] != EQUALS {
        assert Base64.IsDigit(raw[i]);
      }
    }
    if pad != [] {
      IndexOfAfter(digits, pad, EQUALS);
      assert base64[..|digits|] == digits;
    } else {
      assert base64 == digits;
      IndexOfFirst(digits, EQUALS);
    }
  }

  /** The modified BASE64 of n units never has a last group of a single digit. */
  lemma ModifiedLengthNotOne(n: nat)
    ensures (16 * n + 5) / 6 % 4 != 1
  {
    var d := (8 * (2 * n) + 5) / 6;
    Base64.GroupCount(2 * n);
    assert d == (16 * n + 5) / 6;
  }

  /** The padding that FromModifiedBase64 restores, `4 - len & 3`: Dafny's `%` is Euclidean,
      so it agrees with `& 3` on the two's-complement difference. */
  function Padding(len: nat): (p: int)
    ensures 0 <= p <= 3 && (len + p) % 4 == 0
    ensures p == 3 <==> len % 4 == 1
  {
    (4 - len) % 4
  }

  /** FromModifiedBase64: "," back to "/", the padding restored from the length, then base64
      and big-endian decoding. A length that would need three "=" is a FormatException. */
  function FromModifiedBase64(str: seq<Unit>): (r: Result<seq<Unit>>)
    ensures |str| % 4 == 1 ==> r == FormatError
  {
    var t := Replace(str, COMMA, SLASH);
    var padding := Padding(|t|);
    if padding == 3 then FormatError
    else if padding == 4 then
      assert false;
      FormatError
    else
      match Base64.Decode(t + Base64.Pad(padding))
      case FormatError => FormatError
      case Ok(buf) => BigEndianUnits(buf)
  }

  /** Only the modified BASE64 alphabet (with "/" and "=" as Convert.FromBase64String also
      takes them) gets through FromModifiedBase64. */
  lemma FromModifiedBase64Alphabet(str: seq<Unit>)
    ensures FromModifiedBase64(str).Ok? ==>
      forall i | 0 <= i < |str| :: IsModifiedDigit(str[i]) || str[i] == SLASH || str[i] == EQUALS
  {
    var t := Replace(str, COMMA, SLASH);
    var padding := Padding(|t|);
    if padding != 3 && Base64.Decode(t + Base64.Pad(padding)).Ok? {
      Base64.DecodeAlphabet(t + Base64.Pad(padding));
      ReplaceAt(str, COMMA, SLASH);
      assert forall i | 0 <= i < |str| :: (t + Base64.Pad(padding))[i] == t[i];
    }
  }

  /** Mapping "/" to "," and back restores the base64 digits, and the length gives back their padding. */
  lemma DigitsRecovered(bytes: seq<Byte>)
    ensures var digits := Base64.EncodeDigits(bytes);
            Replace(Replace(digits, SLASH, COMMA), COMMA, SLASH) == digits &&
            Padding(|digits|) == Base64.PadLength(|bytes|)
  {
    var digits := Base64.EncodeDigits(bytes);
    Base64.EncodeDigitsAlphabet(bytes);
    assert COMMA !in digits by {
      forall i | 0 <= i < |digits| ensures digits[i] != COMMA {
        assert Base64.IsDigit(digits[i]);
      }
    }
    ReplaceBack(digits, SLASH, COMMA);
    var q := (|bytes| + 2) / 3;
    var e := Base64.Encode(bytes);
    Base64.EncodeLength(bytes);
    assert e == digits + Base64.Pad(Base64.PadLength(|bytes|));
    assert |e| == q * 4;
    assert |digits| + Base64.PadLength(|bytes|) == 4 * q;
    PaddingOfGroups(|digits|, Base64.PadLength(|bytes|), q);
  }

  /** Digits that fill q groups with p padding characters get that padding back. */
  lemma PaddingOfGroups(d: nat, p: nat, q: nat)
    requires d + p == 4 * q && p < 4
    ensures Padding(d) == p
  {
    ModFour(4 - d, 1 - q, p);
  }

  /** The Euclidean remainder by 4 is fixed by any decomposition x == 4k + r with 0 <= r < 4. */
  lemma ModFour(x: int, k: int, r: int)
    requires x == 4 * k + r && 0 <= r < 4
    ensures x % 4 == r
  {
  }

  /** Modified BASE64 decoding inverts modified BASE64 encoding. */
  lemma ModifiedBase64RoundTrip(u: seq<Unit>)
    ensures FromModifiedBase64(ToModifiedBase64(u)) == Ok(u)
  {
    var bytes := BigEndianBytes(u);
    var digits := Base64.EncodeDigits(bytes);
    DigitsRecovered(bytes);
    ModifiedBase64Digits(u);
    var t := Replace(ToModifiedBase64(u), COMMA, SLASH);
    assert t == digits;
    assert t + Base64.Pad(Padding(|t|)) == Base64.Encode(bytes);
    Base64.RoundTrip(bytes);
    BigEndianRoundTrip(u);
  }

  // ---------------------------------------------------------------------------
  // Encoder
  // ---------------------------------------------------------------------------

  /** The length of the run of non-printable units at the front of s. */
  function RunLength(s: seq<Unit>): (k: nat)
    ensures k <= |s|
    ensures forall i | 0 <= i < k :: !IsPrintable(s[i])
    ensures k < |s| ==> IsPrintable(s[k])
  {
    if s == [] || IsPrintable(s[0]) then 0 else 1 + RunLength(s[1..])
  }

  /** A run length is fixed by where the run stops. */
  lemma RunLengthUnique(s: seq<Unit>, k: nat)
    requires k <= |s|
    requires forall i | 0 <= i < k :: !IsPrintable(s[i])
    requires k < |s| ==> IsPrintable(s[k])
    ensures RunLength(s) == k
  {
  }

  /** How one printable unit is written: itself, or "&-" for "&". */
  function Literal(c: Unit): seq<Unit> {
    if c == AMPERSAND then [AMPERSAND, HYPHEN] else [c]
  }

  /** How a run of non-printable units is written: a closed shift block. */
  function Block(run: seq<Unit>): seq<Unit> {
    [AMPERSAND] + ToModifiedBase64(run) + [HYPHEN]
  }

  /** The encoding of a whole text: literals, escapes and one block per maximal run. */
  function Encoded(s: seq<Unit>): seq<Unit>
    decreases |s|, 1
  {
    if s == [] then []
    else if IsPrintable(s[0]) then Literal(s[0]) + Encoded(s[1..])
    else ShiftEncoded(s)
  }

  /** The encoding of a text that starts with a non-printable unit: the block for its
      leading run, then the encoding of the rest. */
  function ShiftEncoded(s: seq<Unit>): seq<Unit>
    requires s != [] && !IsPrintable(s[0])
    decreases |s|, 0
  {
    var k := RunLength(s);
    assert 0 < k;
    Block(s[..k]) + Encoded(s[k..])
  }

  /** Every unit of an encoding is printable US-ASCII. */
  lemma {:induction false} EncodedPrintable(s: seq<Unit>)
    ensures forall i | 0 <= i < |Encoded(s)| :: IsPrintable(Encoded(s)[i])
    decreases |s|
  {
    if s == [] {
    } else if IsPrintable(s[0]) {
      EncodedPrintable(s[1..]);
    } else {
      var k := RunLength(s);
      EncodedPrintable(s[k..]);
      var b, e := ToModifiedBase64(s[..k]), Encoded(s[k..]);
      ModifiedBase64Digits(s[..k]);
      assert Encoded(s) == [AMPERSAND] + b + [HYPHEN] + e;
      assert forall i | 0 <= i < |b| :: IsPrintable(b[i]);
    }
  }

  /** Text that ends in a printable unit (or is empty) is encoded independently of what follows. */
  lemma {:induction false} EncodedAppend(a: seq<Unit>, b: seq<Unit>)
    requires a == [] || IsPrintable(a[|a| - 1]) || (b != [] && IsPrintable(b[0]))
    ensures Encoded(a + b) == Encoded(a) + Encoded(b)
    decreases |a|
  {
    if a == [] {
      assert a + b == b;
    } else if IsPrintable(a[0]) {
      Suffix(a, 1);
      EncodedAppend(a[1..], b);
      AppendAfterLiteral(a, b);
    } else {
      var k := RunLength(a);
      Suffix(a, k);
      EncodedAppend(a[k..], b);
      AppendAfterRun(a, b, k);
    }
  }

  /** The step of EncodedAppend at a leading printable unit. */
  lemma AppendAfterLiteral(a: seq<Unit>, b: seq<Unit>)
    requires a != [] && IsPrintable(a[0])
    requires Encoded(a[1..] + b) == Encoded(a[1..]) + Encoded(b)
    ensures Encoded(a + b) == Encoded(a) + Encoded(b)
  {
    calc {
      Encoded(a + b);
      { SplitAt(a, b, 1); }
      Literal(a[0]) + Encoded(a[1..] + b);
      Literal(a[0]) + (Encoded(a[1..]) + Encoded(b));
      { Assoc(Literal(a[0]), Encoded(a[1..]), Encoded(b)); }
      Encoded(a) + Encoded(b);
    }
  }

  /** The step of EncodedAppend at a leading run that ends inside a. */
  lemma AppendAfterRun(a: seq<Unit>, b: seq<Unit>, k: nat)
    requires a != [] && !IsPrintable(a[0]) && k == RunLength(a)
    requires IsPrintable(a[|a| - 1]) || (b != [] && IsPrintable(b[0]))
    requires Encoded(a[k..] + b) == Encoded(a[k..]) + Encoded(b)
    ensures Encoded(a + b) == Encoded(a) + Encoded(b)
  {
    SplitAt(a, b, k);
    RunLengthUnique(a + b, k);
    calc {
      Encoded(a + b);
      Block(a[..k]) + Encoded(a[k..] + b);
      Block(a[..k]) + (Encoded(a[k..]) + Encoded(b));
      { Assoc(Block(a[..k]), Encoded(a[k..]), Encoded(b)); }
      Encoded(a) + Encoded(b);
    }
  }

  /** A non-empty suffix ends where the whole sequence ends. */
  lemma Suffix<T>(a: seq<T>, k: nat)
    requires k <= |a|
    ensures a[k..] == [] || a[k..][|a[k..]| - 1] == a[|a| - 1]
  {
  }

  /** A prefix grows by one element at a time and ends where it was cut. */
  lemma Prefix<T>(a: seq<T>, k: nat)
    requires k < |a|
    ensures a[..k] + [a[k]] == a[..k + 1]
    ensures k == 0 || a[..k][k - 1] == a[k - 1]
    ensures k == 0 <==> a[..k] == []
  {
  }

  /** Splitting a concatenation at a point inside its first part. */
  lemma SplitAt<T>(a: seq<T>, b: seq<T>, k: nat)
    requires 0 < k <= |a|
    ensures (a + b)[0] == a[0] && (a + b)[..k] == a[..k] && (a + b)[k..] == a[k..] + b
  {
  }

  lemma Assoc<T>(x: seq<T>, y: seq<T>, z: seq<T>)
    ensures x + (y + z) == x + y + z
  {
  }

  /** A maximal non-printable run becomes exactly one closed block. */
  lemma EncodedRun(run: seq<Unit>, rest: seq<Unit>)
    requires run != [] && forall i | 0 <= i < |run| :: !IsPrintable(run[i])
    requires rest == [] || IsPrintable(rest[0])
    ensures Encoded(run + rest) == Block(run) + Encoded(rest)
  {
    var s := run + rest;
    RunLengthUnique(s, |run|);
    assert s[..|run|] == run;
    assert s[|run|..] == rest;
  }

  /** A printable unit is encoded as its literal. */
  lemma EncodedOne(c: Unit)
    requires IsPrintable(c)
    ensures Encoded([c]) == Literal(c)
  {
    assert [c][1..] == [];
  }

  /** A run between text that ends in a printable unit and text that starts with one
      is written as one closed block between their encodings. */
  lemma EncodedBetween(prefix: seq<Unit>, run: seq<Unit>, tail: seq<Unit>)
    requires prefix == [] || IsPrintable(prefix[|prefix| - 1])
    requires run != [] && forall i | 0 <= i < |run| :: !IsPrintable(run[i])
    requires tail == [] || IsPrintable(tail[0])
    ensures Encoded(prefix + run + tail)
         == Encoded(prefix) + [AMPERSAND] + ToModifiedBase64(run) + [HYPHEN] + Encoded(tail)
  {
    Assoc(prefix, run, tail);
    EncodedAppend(prefix, run + tail);
    EncodedRun(run, tail);
    BlockRegroup(Encoded(prefix), ToModifiedBase64(run), Encoded(tail));
  }

  /** Moving the parentheses of a block written between two other sequences. */
  lemma BlockRegroup(e: seq<Unit>, m: seq<Unit>, t: seq<Unit>)
    ensures e + ([AMPERSAND] + m + [HYPHEN] + t) == e + [AMPERSAND] + m + [HYPHEN] + t
  {
  }

  lemma SplitJoin(s: seq<Unit>, k: nat)
    requires k <= |s|
    ensures s[..k] + s[k..] == s
  {
  }

  /** A run that ends the text is written as one closed block after the encoding of what precedes it. */
  lemma EncodedEnd(prefix: seq<Unit>, run: seq<Unit>)
    requires prefix == [] || IsPrintable(prefix[|prefix| - 1])
    requires run != [] && forall i | 0 <= i < |run| :: !IsPrintable(run[i])
    ensures Encoded(prefix + run) == Encoded(prefix) + [AMPERSAND] + ToModifiedBase64(run) + [HYPHEN]
  {
    EncodedBetween(prefix, run, []);
    var e := Encoded(prefix) + [AMPERSAND] + ToModifiedBase64(run) + [HYPHEN];
    assert prefix + run + [] == prefix + run;
    assert Encoded([]) == [];
    assert e + [] == e;
  }

  /** A slice of a non-printable stretch is a non-printable run. */
  lemma NonPrintableSlice(str: seq<Unit>, from: nat, to: nat)
    requires from <= to <= |str|
    requires forall i | from <= i < to :: !IsPrintable(str[i])
    ensures forall i | 0 <= i < to - from :: !IsPrintable(str[from..to][i])
  {
  }

  /** The loop invariant of ToModifiedUTF7 after `index` units: with no shift open
      (shiftFrom == -1), `encoded` is the encoding of all of them; with a shift open at
      shiftFrom, it is the encoding of the units before shiftFrom, and the units from
      shiftFrom on are all non-printable. */
  ghost predicate EncodedSoFar(str: seq<Unit>, encoded: seq<Unit>, shiftFrom: int, index: nat) {
    index <= |str| &&
    if shiftFrom == -1 then
      encoded == Encoded(str[..index]) && (index == 0 || IsPrintable(str[index - 1]))
    else
      0 <= shiftFrom < index && encoded == Encoded(str[..shiftFrom]) && OpenRun(str, shiftFrom, index)
  }

  /** str[from..index] is a run of non-printable units that starts after a printable one
      (or at the start of the text). */
  ghost predicate OpenRun(str: seq<Unit>, from: nat, index: nat) {
    from < index <= |str| && (from == 0 || IsPrintable(str[from - 1])) &&
    forall i | from <= i < index :: !IsPrintable(str[i])
  }

  /** A non-printable unit extends an open run. */
  lemma ExtendRun(str: seq<Unit>, from: nat, index: nat)
    requires OpenRun(str, from, index) && index < |str| && !IsPrintable(str[index])
    ensures OpenRun(str, from, index + 1)
  {
    forall i | from <= i < index + 1 ensures !IsPrintable(str[i]) {
      if i < index {
      }
    }
  }

  /** Closing the open shift: the block of the run str[shiftFrom..index] completes the
      encoding of everything before index. */
  lemma CloseShift(str: seq<Unit>, encoded: seq<Unit>, shiftFrom: nat, index: nat)
    requires EncodedSoFar(str, encoded, shiftFrom, index)
    ensures encoded + [AMPERSAND] + ToModifiedBase64(str[shiftFrom..index]) + [HYPHEN] == Encoded(str[..index])
  {
    var prefix, run := str[..shiftFrom], str[shiftFrom..index];
    assert prefix + run == str[..index];
    assert prefix == [] || prefix[|prefix| - 1] == str[shiftFrom - 1];
    NonPrintableSlice(str, shiftFrom, index);
    EncodedEnd(prefix, run);
  }

  /** A printable unit is written as its literal, whether or not a shift was just closed. */
  lemma PrintableAdvance(str: seq<Unit>, encoded: seq<Unit>, index: nat)
    requires index < |str| && IsPrintable(str[index]) && encoded == Encoded(str[..index])
    ensures EncodedSoFar(str, encoded + Literal(str[index]), -1, index + 1)
  {
    Prefix(str, index);
    EncodedAppend(str[..index], [str[index]]);
    EncodedOne(str[index]);
  }

  /** A non-printable unit opens a shift or extends the open one. */
  lemma NonPrintableAdvance(str: seq<Unit>, encoded: seq<Unit>, shiftFrom: int, index: nat)
    requires EncodedSoFar(str, encoded, shiftFrom, index) && index < |str| && !IsPrintable(str[index])
    ensures EncodedSoFar(str, encoded, if shiftFrom == -1 then index else shiftFrom, index + 1)
  {
    if shiftFrom == -1 {
      OpenShift(str, encoded, index);
    } else {
      ExtendShift(str, encoded, shiftFrom, index);
    }
  }

  lemma OpenShift(str: seq<Unit>, encoded: seq<Unit>, index: nat)
    requires index < |str| && !IsPrintable(str[index])
    requires encoded == Encoded(str[..index]) && (index == 0 || IsPrintable(str[index - 1]))
    ensures EncodedSoFar(str, encoded, index, index + 1)
  {
  }

  lemma ExtendShift(str: seq<Unit>, encoded: seq<Unit>, shiftFrom: nat, index: nat)
    requires index < |str| && !IsPrintable(str[index])
    requires OpenRun(str, shiftFrom, index) && encoded == Encoded(str[..shiftFrom])
    ensures EncodedSoFar(str, encoded, shiftFrom, index + 1)
  {
    ExtendRun(str, shiftFrom, index);
  }

  /** After the last unit, closing the open shift, if any, completes the encoding. */
  lemma EncodedFinish(str: seq<Unit>, encoded: seq<Unit>, shiftFrom: int)
    requires EncodedSoFar(str, encoded, shiftFrom, |str|)
    ensures shiftFrom == -1 ==> encoded == Encoded(str)
    ensures 0 <= shiftFrom ==> encoded + [AMPERSAND] + ToModifiedBase64(str[shiftFrom..]) + [HYPHEN] == Encoded(str)
  {
    assert str[..|str|] == str;
    if 0 <= shiftFrom {
      CloseShift(str, encoded, shiftFrom, |str|);
      assert str[shiftFrom..] == str[shiftFrom..|str|];
    }
  }

  /** ToModifiedUTF7: one pass over the units with the open-shift marker shiftFrom (-1 when
      no shift is open); a run still open at the end is closed after the loop. */
  method ToModifiedUTF7(str: seq<Unit>) returns (encoded: seq<Unit>)
    ensures encoded == Encoded(str)
  {
    encoded := [];
    var shiftFrom := -1;
    for index := 0 to |str|
      invariant EncodedSoFar(str, encoded, shiftFrom, index)
    {
      var c := str[index];
      if 0x20 <= c <= 0x7E {
        if 0 <= shiftFrom {
          CloseShift(str, encoded, shiftFrom, index);
          // close the open run: "&", its digits, "-"
          encoded := encoded + [AMPERSAND] + ToModifiedBase64(str[shiftFrom..index]) + [HYPHEN];
          shiftFrom := -1;
        }
        PrintableAdvance(str, encoded, index);
        // a printable character stands for itself; "&" becomes "&-"
        if c == AMPERSAND {
          encoded := encoded + [AMPERSAND, HYPHEN];
        } else {
          encoded := encoded + [c];
        }
      } else {
        NonPrintableAdvance(str, encoded, shiftFrom, index);
        if shiftFrom == -1 {
          shiftFrom := index;
        }
      }
    }
    EncodedFinish(str, encoded, shiftFrom);
    if 0 <= shiftFrom {
      // the input ended inside a run: close it
      encoded := encoded + [AMPERSAND] + ToModifiedBase64(str[shiftFrom..]) + [HYPHEN];
    }
  }

  /** Printable text without "&" is its own encoding. */
  lemma {:induction false} EncodedPlain(s: seq<Unit>)
    requires forall i | 0 <= i < |s| :: IsPrintable(s[i]) && s[i] != AMPERSAND
    ensures Encoded(s) == s
    decreases |s|
  {
    if s != [] {
      EncodedPlain(s[1..]);
      assert s == [s[0]] + s[1..];
    }
  }

  // ---------------------------------------------------------------------------
  // Decoder
  // ---------------------------------------------------------------------------

  /** A partial result preceded by units already decoded; a failure stays a failure. */
  function Prepend(p: seq<Unit>, r: Result<seq<Unit>>): Result<seq<Unit>> {
    match r
    case Ok(v) => Ok(p + v)
    case FormatError => FormatError
  }

  lemma PrependNothing(r: Result<seq<Unit>>)
    ensures Prepend([], r) == r
  {
    if r.Ok? { assert [] + r.value == r.value; }
  }

  /** Prepending in two steps is prepending the concatenation. */
  lemma PrependTwice(p: seq<Unit>, q: seq<Unit>, r: Result<seq<Unit>>)
    ensures Prepend(p, Prepend(q, r)) == Prepend(p + q, r)
  {
    if r.Ok? { assert p + (q + r.value) == p + q + r.value; }
  }

  /** The position of the first "-" in s, or |s| when there is none. */
  function HyphenIndex(s: seq<Unit>): (k: nat)
    ensures k <= |s| && HYPHEN !in s[..k]
    ensures k < |s| ==> s[k] == HYPHEN
  {
    if s == [] || s[0] == HYPHEN then 0
    else
      var k := HyphenIndex(s[1..]);
      assert s[..k + 1] == [s[0]] + s[1..][..k];
      k + 1
  }

  /** A hyphen index is fixed by where the scan stops. */
  lemma HyphenIndexUnique(s: seq<Unit>, k: nat)
    requires k <= |s| && forall i | 0 <= i < k :: s[i] != HYPHEN
    requires k < |s| ==> s[k] == HYPHEN
    ensures HyphenIndex(s) == k
  {
  }

  /** The decoding of a whole wire string: a literal byte, an escaped "&-", or a shift block
      that runs to the next "-" (or, leniently, to the end of the input). */
  function Decoded(b: seq<Unit>): (r: Result<seq<Unit>>)
    decreases |b|, 1
  {
    if b == [] then Ok([])
    else if b[0] != AMPERSAND then Prepend([b[0]], Decoded(b[1..]))
    else if |b| == 1 then FormatError
    else if b[1] == HYPHEN then Prepend([AMPERSAND], Decoded(b[2..]))
    else ShiftDecoded(b)
  }

  /** The decoding of a wire string that opens with a shift block: the block's modified
      BASE64, then the decoding of what follows its "-". */
  function ShiftDecoded(b: seq<Unit>): (r: Result<seq<Unit>>)
    requires b != []
    decreases |b|, 0
  {
    var k := HyphenIndex(b[1..]);
    match FromModifiedBase64(b[1..1 + k])
    case FormatError => FormatError
    case Ok(u) => Prepend(u, Decoded(if 1 + k < |b| then b[2 + k..] else []))
  }

  /** What is left of b from position i on; empty once i has passed the end. */
  function Rest(b: seq<Unit>, i: nat): seq<Unit> {
    if i < |b| then b[i..] else []
  }

  /** Text without "&" decodes to itself. */
  lemma {:induction false} DecodedPlain(s: seq<Unit>)
    requires AMPERSAND !in s
    ensures Decoded(s) == Ok(s)
    decreases |s|
  {
    if s != [] {
      DecodedPlain(s[1..]);
      assert s == [s[0]] + s[1..];
    }
  }

  /** A unit other than "&" is copied and the rest decoded after it. */
  lemma DecodedLiteral(c: Unit, rest: seq<Unit>)
    requires c != AMPERSAND
    ensures Decoded([c] + rest) == Prepend([c], Decoded(rest))
  {
    assert ([c] + rest)[1..] == rest;
  }

  /** "&-" decodes to a single "&" and consumes both bytes. */
  lemma DecodedEscape(rest: seq<Unit>)
    ensures Decoded([AMPERSAND, HYPHEN] + rest) == Prepend([AMPERSAND], Decoded(rest))
  {
    assert ([AMPERSAND, HYPHEN] + rest)[2..] == rest;
  }

  /** A shift block ends at the first "-", which is consumed; its contents are modified BASE64. */
  lemma DecodedBlock(m: seq<Unit>, rest: seq<Unit>)
    requires m != [] && HYPHEN !in m
    ensures Decoded([AMPERSAND] + m + [HYPHEN] + rest) ==
      match FromModifiedBase64(m)
      case FormatError => FormatError
      case Ok(u) => Prepend(u, Decoded(rest))
  {
    var b := [AMPERSAND] + m + [HYPHEN] + rest;
    assert b[1] == m[0];
    assert b[1..] == m + [HYPHEN] + rest;
    HyphenIndexUnique(b[1..], |m|);
    assert b[1..1 + |m|] == m;
    assert b[2 + |m|..] == rest;
  }

  /** A shift block that reaches the end of the input without "-" is decoded all the same. */
  lemma DecodedOpenBlock(m: seq<Unit>)
    requires m != [] && HYPHEN !in m
    ensures Decoded([AMPERSAND] + m) == FromModifiedBase64(m)
  {
    var b := [AMPERSAND] + m;
    assert b[1] == m[0];
    assert b[1..] == m;
    HyphenIndexUnique(m, |m|);
    assert b[1..1 + |m|] == m;
    assert Decoded([]) == Ok([]);
    match FromModifiedBase64(m)
    case FormatError =>
    case Ok(u) => assert u + [] == u;
  }

  /** A wire string whose last byte is an unescaped "&" is malformed. */
  lemma {:induction false} DecodedTrailingAmpersand(p: seq<Unit>)
    ensures Decoded(p + [AMPERSAND]) == FormatError
    decreases |p|
  {
    var b := p + [AMPERSAND];
    if p == [] {
    } else if b[0] != AMPERSAND {
      assert b[1..] == p[1..] + [AMPERSAND];
      DecodedTrailingAmpersand(p[1..]);
    } else if b[1] == HYPHEN {
      assert b[2..] == p[2..] + [AMPERSAND];
      DecodedTrailingAmpersand(p[2..]);
    } else {
      var k := HyphenIndex(b[1..]);
      if 1 + k < |b| {
        assert b[2 + k..] == p[2 + k..] + [AMPERSAND];
        DecodedTrailingAmpersand(p[2 + k..]);
      } else {
        // the block runs to the end and holds the "&", which is no digit
        var block := b[1..1 + k];
        assert block[|block| - 1] == AMPERSAND;
        assert !IsModifiedDigit(AMPERSAND);
        FromModifiedBase64Alphabet(block);
      }
    }
  }

  /** The decoder's step at a byte other than "&". */
  lemma LiteralStepAt(bytes: seq<Unit>, at: nat)
    requires at < |bytes| && bytes[at] != AMPERSAND
    ensures Decoded(Rest(bytes, at)) == Prepend([bytes[at]], Decoded(Rest(bytes, at + 1)))
  {
    assert Rest(bytes, at) == [bytes[at]] + Rest(bytes, at + 1);
    DecodedLiteral(bytes[at], Rest(bytes, at + 1));
  }

  /** The decoder's step at a final "&". */
  lemma TrailingStepAt(bytes: seq<Unit>, at: nat)
    requires at + 1 == |bytes| && bytes[at] == AMPERSAND
    ensures Decoded(Rest(bytes, at)) == FormatError
  {
    assert Rest(bytes, at) == [AMPERSAND];
  }

  /** The decoder's step at "&-". */
  lemma EscapeStepAt(bytes: seq<Unit>, at: nat)
    requires at + 1 < |bytes| && bytes[at] == AMPERSAND && bytes[at + 1] == HYPHEN
    ensures Decoded(Rest(bytes, at)) == Prepend([AMPERSAND], Decoded(Rest(bytes, at + 2)))
  {
    assert Rest(bytes, at) == [AMPERSAND, HYPHEN] + Rest(bytes, at + 2);
    DecodedEscape(Rest(bytes, at + 2));
  }

  /** The decoder's step at a shift block bytes[at + 1..end], closed by a "-" at end or by the end of input. */
  lemma BlockStepAt(bytes: seq<Unit>, at: nat, end: nat)
    requires at + 1 < end <= |bytes| && bytes[at] == AMPERSAND
    requires HYPHEN !in bytes[at + 1..end]
    requires end < |bytes| ==> bytes[end] == HYPHEN
    ensures FromModifiedBase64(bytes[at + 1..end]).FormatError? ==> Decoded(Rest(bytes, at)) == FormatError
    ensures FromModifiedBase64(bytes[at + 1..end]).Ok? ==>
      Decoded(Rest(bytes, at)) == Prepend(FromModifiedBase64(bytes[at + 1..end]).value, Decoded(Rest(bytes, end + 1)))
  {
    var m := bytes[at + 1..end];
    if end < |bytes| {
      assert Rest(bytes, at) == [AMPERSAND] + m + [HYPHEN] + Rest(bytes, end + 1);
      DecodedBlock(m, Rest(bytes, end + 1));
    } else {
      assert Rest(bytes, at) == [AMPERSAND] + m;
      DecodedOpenBlock(m);
      assert Decoded(Rest(bytes, end + 1)) == Ok([]);
      match FromModifiedBase64(m)
      case FormatError =>
      case Ok(u) => assert u + [] == u;
    }
  }

  /** The nested scan of FromModifiedUTF7: collects the bytes from `start` up to the next "-"
      (not included) or the end of the input, and stops on that "-". */
  method ScanBlock(bytes: seq<Unit>, start: nat) returns (nonPrintable: seq<Unit>, index: nat)
    requires start <= |bytes|
    ensures start <= index <= |bytes|
    ensures nonPrintable == bytes[start..index]
    ensures HYPHEN !in nonPrintable
    ensures index < |bytes| ==> bytes[index] == HYPHEN
  {
    nonPrintable, index := [], start;
    while index < |bytes|
      invariant start <= index <= |bytes|
      invariant nonPrintable == bytes[start..index]
      invariant HYPHEN !in nonPrintable
    {
      if bytes[index] == HYPHEN {
        // the "-" ends the block
        break;
      }
      nonPrintable := nonPrintable + [bytes[index]];
      index := index + 1;
    }
  }

  /** The loop invariant of FromModifiedUTF7: `decoded` followed by the decoding of what is
      left from `index` on is the decoding of the whole input. */
  ghost predicate DecodedSoFar(bytes: seq<Unit>, decoded: seq<Unit>, index: nat) {
    Decoded(bytes) == Prepend(decoded, Decoded(Rest(bytes, index)))
  }

  lemma LiteralAdvance(bytes: seq<Unit>, decoded: seq<Unit>, at: nat)
    requires at < |bytes| && bytes[at] != AMPERSAND && DecodedSoFar(bytes, decoded, at)
    ensures DecodedSoFar(bytes, decoded + [bytes[at]], at + 1)
  {
    LiteralStepAt(bytes, at);
    PrependTwice(decoded, [bytes[at]], Decoded(Rest(bytes, at + 1)));
  }

  lemma EscapeAdvance(bytes: seq<Unit>, decoded: seq<Unit>, at: nat)
    requires at + 1 < |bytes| && bytes[at] == AMPERSAND && bytes[at + 1] == HYPHEN
    requires DecodedSoFar(bytes, decoded, at)
    ensures DecodedSoFar(bytes, decoded + [AMPERSAND], at + 2)
  {
    EscapeStepAt(bytes, at);
    PrependTwice(decoded, [AMPERSAND], Decoded(Rest(bytes, at + 2)));
  }

  lemma TrailingFails(bytes: seq<Unit>, decoded: seq<Unit>, at: nat)
    requires at + 1 == |bytes| && bytes[at] == AMPERSAND && DecodedSoFar(bytes, decoded, at)
    ensures Decoded(bytes) == FormatError
  {
    TrailingStepAt(bytes, at);
  }

  lemma BlockAdvance(bytes: seq<Unit>, decoded: seq<Unit>, at: nat, end: nat, block: seq<Unit>, result: Result<seq<Unit>>)
    requires at + 1 < end <= |bytes| && bytes[at] == AMPERSAND && block == bytes[at + 1..end]
    requires HYPHEN !in block
    requires end < |bytes| ==> bytes[end] == HYPHEN
    requires DecodedSoFar(bytes, decoded, at) && result == FromModifiedBase64(block)
    ensures result.FormatError? ==> Decoded(bytes) == FormatError
    ensures result.Ok? ==> DecodedSoFar(bytes, decoded + result.value, end + 1)
  {
    BlockStepAt(bytes, at, end);
    match result
    case FormatError =>
    case Ok(u) => PrependTwice(decoded, u, Decoded(Rest(bytes, end + 1)));
  }

  lemma DecodedStart(bytes: seq<Unit>)
    ensures DecodedSoFar(bytes, [], 0)
  {
    assert Rest(bytes, 0) == bytes;
    PrependNothing(Decoded(bytes));
  }

  lemma DecodedDone(bytes: seq<Unit>, decoded: seq<Unit>, index: nat)
    requires |bytes| <= index && DecodedSoFar(bytes, decoded, index)
    ensures Decoded(bytes) == Ok(decoded)
  {
    assert Rest(bytes, index) == [];
    assert decoded + [] == decoded;
  }

  /** FromModifiedUTF7: the fast path for text without "&", then one pass over the ASCII
      bytes with a nested scan for each shift block. */
  method FromModifiedUTF7(str: seq<Unit>) returns (r: Result<seq<Unit>>)
    requires AMPERSAND in str ==> IsAscii(str)
    ensures r == Decoded(str)
    ensures AMPERSAND !in str ==> r == Ok(str)
  {
    if AMPERSAND !in str {
      DecodedPlain(str);
      return Ok(str);
    }
    var bytes: seq<Unit> := AsciiBytes(str);
    var decoded: seq<Unit> := [];
    var index := 0;
    DecodedStart(bytes);
    while index < |bytes|
      invariant 0 <= index <= |bytes| + 1
      invariant DecodedSoFar(bytes, decoded, index)
      decreases |bytes| + 1 - index
    {
      var at := index;
      if bytes[index] != AMPERSAND {
        LiteralAdvance(bytes, decoded, at);
        decoded := decoded + [bytes[index]];
        index := index + 1;
        continue;
      }
      index := index + 1;
      if |bytes| <= index {
        // a lone "&" at the very end has no block to open
        TrailingFails(bytes, decoded, at);
        return FormatError;
      }
      if bytes[index] == HYPHEN {
        // "&-" stands for "&"
        EscapeAdvance(bytes, decoded, at);
        decoded := decoded + [AMPERSAND];
        index := index + 1;
        continue;
      }
      var nonPrintable;
      nonPrintable, index := ScanBlock(bytes, index);
      // decode the digits between "&" and "-"
      var block := FromModifiedBase64(nonPrintable);
      BlockAdvance(bytes, decoded, at, index, nonPrintable, block);
      if block.FormatError? {
        return FormatError;
      }
      assert DecodedSoFar(bytes, decoded + block.value, index + 1);
      decoded := decoded + block.value;
      index := index + 1;
    }
    DecodedDone(bytes, decoded, index);
    return Ok(decoded);
  }

  // ---------------------------------------------------------------------------
  // Round trip
  // ---------------------------------------------------------------------------

  /** Decoding the encoding of any sequence of UTF-16 units gives it back. */
  lemma {:induction false} RoundTrip(s: seq<Unit>)
    ensures Decoded(Encoded(s)) == Ok(s)
    decreases |s|
  {
    if s != [] {
      if IsPrintable(s[0]) {
        RoundTrip(s[1..]);
        RoundTripLiteral(s);
      } else {
        RoundTrip(s[RunLength(s)..]);
        RoundTripRun(s);
      }
    }
  }

  /** The step of RoundTrip at a leading printable unit. */
  lemma RoundTripLiteral(s: seq<Unit>)
    requires s != [] && IsPrintable(s[0]) && Decoded(Encoded(s[1..])) == Ok(s[1..])
    ensures Decoded(Encoded(s)) == Ok(s)
  {
    var e := Encoded(s[1..]);
    assert Encoded(s) == Literal(s[0]) + e;
    if s[0] == AMPERSAND {
      DecodedEscape(e);
    } else {
      DecodedLiteral(s[0], e);
    }
    assert s == [s[0]] + s[1..];
  }

  /** The step of RoundTrip at a leading run of non-printable units. */
  lemma RoundTripRun(s: seq<Unit>)
    requires s != [] && !IsPrintable(s[0])
    requires Decoded(Encoded(s[RunLength(s)..])) == Ok(s[RunLength(s)..])
    ensures Decoded(Encoded(s)) == Ok(s)
  {
    var k := RunLength(s);
    var run, rest := s[..k], s[k..];
    var m, e := ToModifiedBase64(run), Encoded(rest);
    assert Encoded(s) == [AMPERSAND] + m + [HYPHEN] + e;
    ModifiedBase64Digits(run);
    ModifiedBase64Length(run);
    ModifiedBase64RoundTrip(run);
    DecodedBlock(m, e);
    SplitJoin(s, k);
  }

  /** An encoding is printable US-ASCII, so it meets the decoder's demand on its input, and
      FromModifiedUTF7 applied to what ToModifiedUTF7 wrote gives the units back. */
  method EncodeThenDecode(str: seq<Unit>) returns (r: Result<seq<Unit>>)
    ensures r == Ok(str)
  {
    var wire := ToModifiedUTF7(str);
    EncodedPrintable(str);
    assert IsAscii(wire);
    r := FromModifiedUTF7(wire);
    RoundTrip(str);
  }
}
