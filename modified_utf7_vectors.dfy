/** Worked examples of the modified UTF-7 mailbox-name encoding of section 5.1.3 of
    RFC 3501, stated on the specification functions that the encoder and decoder
    methods are proved against. */
module ModifiedUtf7Vectors {
  import opened Text
  import Base64
  import opened ModifiedUtf7

  /** The parts of the mailbox name "~peter/mail/台北/日本語" and of its encoding. */
  const Mail: seq<Unit> := Units("~peter/mail/")
  const Taipei: seq<Unit> := Units("台北")
  const Slash: seq<Unit> := Units("/")
  const Japanese: seq<Unit> := Units("日本語")
  const TaipeiBlock: seq<Unit> := Units("U,BTFw")
  const JapaneseBlock: seq<Unit> := Units("ZeVnLIqe")

  /** The standard base64 of the octets 53 F0 53 17 is "U/BTFw" (unpadded). */
  lemma TaipeiBase64()
    ensures Base64.EncodeDigits([0x53, 0xF0, 0x53, 0x17]) == [0x55, SLASH, 0x42, 0x54, 0x46, 0x77]
  {
    var bytes: seq<Byte> := [0x53, 0xF0, 0x53, 0x17];
    assert bytes[3..] == [0x17];
    Base64.EncodeGroups(bytes);
    QuantumOf(0x53, 0xF0, 0x53, 20, 63, 1, 19);
    assert Base64.Digit(20) == 0x55 && Base64.Digit(63) == SLASH && Base64.Digit(1) == 0x42 && Base64.Digit(19) == 0x54;
    assert 0x17 / 4 == 5 && 0x17 % 4 * 16 == 48;
    assert Base64.Digit(5) == 0x46 && Base64.Digit(48) == 0x77;
  }

  /** The standard base64 of the octets 65 E5 67 2C 8A 9E is "ZeVnLIqe": two whole groups. */
  lemma JapaneseBase64()
    ensures Base64.EncodeDigits([0x65, 0xE5, 0x67, 0x2C, 0x8A, 0x9E]) == [0x5A, 0x65, 0x56, 0x6E, 0x4C, 0x49, 0x71, 0x65]
  {
    var bytes: seq<Byte> := [0x65, 0xE5, 0x67, 0x2C, 0x8A, 0x9E];
    assert bytes[3..] == [0x2C, 0x8A, 0x9E];
    assert bytes[3..][3..] == [];
    Base64.EncodeGroups(bytes);
    Base64.EncodeGroups(bytes[3..]);
    QuantumOf(0x65, 0xE5, 0x67, 25, 30, 21, 39);
    assert Base64.Digit(25) == 0x5A && Base64.Digit(30) == 0x65 && Base64.Digit(21) == 0x56 && Base64.Digit(39) == 0x6E;
    QuantumOf(0x2C, 0x8A, 0x9E, 11, 8, 42, 30);
    assert Base64.Digit(11) == 0x4C && Base64.Digit(8) == 0x49 && Base64.Digit(42) == 0x71;
  }

  /** The four digits of three octets, from the four 6-bit values worked out by hand. */
  lemma QuantumOf(x: Byte, y: Byte, z: Byte, a: nat, b: nat, c: nat, d: nat)
    requires x / 4 == a && x % 4 * 16 + y / 16 == b && y % 16 * 4 + z / 64 == c && z % 64 == d
    ensures a < 64 && b < 64 && c < 64 && d < 64
    ensures Base64.Quantum(x, y, z) == [Base64.Digit(a), Base64.Digit(b), Base64.Digit(c), Base64.Digit(d)]
  {
  }

  /** Modified BASE64 from the base64 digits: "/" shown as ",". */
  lemma ModifiedDigitsOf(u: seq<Unit>, digits: seq<Unit>, m: seq<Unit>)
    requires Base64.EncodeDigits(BigEndianBytes(u)) == digits && |digits| == |m|
    requires forall i | 0 <= i < |m| :: m[i] == if digits[i] == SLASH then COMMA else digits[i]
    ensures ToModifiedBase64(u) == m
  {
    ModifiedBase64Digits(u);
    ReplaceAt(digits, SLASH, COMMA);
  }

  /** "台北" (U+53F0 U+5317) is "U,BTFw" in modified BASE64: "U/BTFw" with "/" replaced by ",". */
  lemma TaipeiDigits()
    ensures ToModifiedBase64([0x53F0, 0x5317]) == TaipeiBlock
  {
    TaipeiOctets();
    TaipeiBase64();
    ModifiedDigitsOf([0x53F0, 0x5317], [0x55, SLASH, 0x42, 0x54, 0x46, 0x77], [0x55, COMMA, 0x42, 0x54, 0x46, 0x77]);
    TaipeiUnits();
  }

  lemma TaipeiOctets()
    ensures BigEndianBytes([0x53F0, 0x5317]) == [0x53, 0xF0, 0x53, 0x17]
  {
    var u: seq<Unit> := [0x53F0, 0x5317];
    assert u[1..] == [0x5317] && u[1..][1..] == [];
  }

  lemma TaipeiUnits()
    ensures TaipeiBlock == [0x55, COMMA, 0x42, 0x54, 0x46, 0x77]
  {
  }

  /** "日本語" (U+65E5 U+672C U+8A9E) is "ZeVnLIqe" in modified BASE64. */
  lemma JapaneseDigits()
    ensures ToModifiedBase64([0x65E5, 0x672C, 0x8A9E]) == JapaneseBlock
  {
    JapaneseOctets();
    JapaneseBase64();
    ModifiedDigitsOf([0x65E5, 0x672C, 0x8A9E], [0x5A, 0x65, 0x56, 0x6E, 0x4C, 0x49, 0x71, 0x65], [0x5A, 0x65, 0x56, 0x6E, 0x4C, 0x49, 0x71, 0x65]);
    JapaneseUnits();
  }

  lemma JapaneseOctets()
    ensures BigEndianBytes([0x65E5, 0x672C, 0x8A9E]) == [0x65, 0xE5, 0x67, 0x2C, 0x8A, 0x9E]
  {
    var u: seq<Unit> := [0x65E5, 0x672C, 0x8A9E];
    assert u[1..] == [0x672C, 0x8A9E] && u[1..][1..] == [0x8A9E] && u[1..][1..][1..] == [];
  }

  lemma JapaneseUnits()
    ensures JapaneseBlock == [0x5A, 0x65, 0x56, 0x6E, 0x4C, 0x49, 0x71, 0x65]
  {
  }

  /** A text that is one run of non-printable units is one block: "&", its digits, "-". */
  lemma RunOf(u: seq<Unit>, m: seq<Unit>)
    requires u != [] && forall i | 0 <= i < |u| :: !IsPrintable(u[i])
    requires ToModifiedBase64(u) == m
    ensures Encoded(u) == [AMPERSAND] + m + [HYPHEN]
  {
    EncodedRun(u, []);
    assert u + [] == u;
    assert Block(u) + Encoded([]) == Block(u);
  }

  /** "台北" alone is written "&U,BTFw-". */
  lemma TaipeiEncoded()
    ensures Encoded(Taipei) == [AMPERSAND] + TaipeiBlock + [HYPHEN]
  {
    assert Taipei == [0x53F0, 0x5317];
    TaipeiDigits();
    RunOf(Taipei, TaipeiBlock);
  }

  /** "日本語" alone is written "&ZeVnLIqe-". */
  lemma JapaneseEncoded()
    ensures Encoded(Japanese) == [AMPERSAND] + JapaneseBlock + [HYPHEN]
  {
    assert Japanese == [0x65E5, 0x672C, 0x8A9E];
    JapaneseDigits();
    RunOf(Japanese, JapaneseBlock);
  }

  /** Printable ASCII other than "&" passes through unchanged. */
  lemma PlainSegment(s: string)
    requires forall i | 0 <= i < |s| :: 0x20 <= s[i] as int <= 0x7E && s[i] != '&'
    ensures Encoded(Units(s)) == Units(s)
  {
    EncodedPlain(Units(s));
  }

  /** The mailbox name of section 5.1.3 of RFC 3501, "~peter/mail/台北/日本語", is written
      "~peter/mail/&U,BTFw-/&ZeVnLIqe-": each run of non-ASCII units becomes one shift block,
      the ASCII around it stays as it is. */
  lemma MailboxExample()
    ensures Encoded(Mail + Taipei + Slash + Japanese) ==
      Mail + [AMPERSAND] + TaipeiBlock + [HYPHEN] + Slash + [AMPERSAND] + JapaneseBlock + [HYPHEN]
  {
    PlainSegment("~peter/mail/");
    PlainSegment("/");
    TaipeiEncoded();
    JapaneseEncoded();
    TwoBlocks(Mail, Taipei, Slash, Japanese, TaipeiBlock, JapaneseBlock);
  }

  /** Plain text, a run, plain text and a final run: two blocks between the plain parts. */
  lemma TwoBlocks(a: seq<Unit>, run: seq<Unit>, b: seq<Unit>, last: seq<Unit>, m: seq<Unit>, n: seq<Unit>)
    requires Encoded(a) == a && (a == [] || IsPrintable(a[|a| - 1]))
    requires Encoded(b) == b && b != [] && IsPrintable(b[0]) && IsPrintable(b[|b| - 1])
    requires Encoded(run) == [AMPERSAND] + m + [HYPHEN] && Encoded(last) == [AMPERSAND] + n + [HYPHEN]
    ensures Encoded(a + run + b + last) == a + [AMPERSAND] + m + [HYPHEN] + b + [AMPERSAND] + n + [HYPHEN]
  {
    Seams(a, run, b, last);
    Flatten(a, m, b, n);
  }

  /** Text split where a printable unit sits on one side of every seam is encoded part by part. */
  lemma Seams(a: seq<Unit>, run: seq<Unit>, b: seq<Unit>, last: seq<Unit>)
    requires a == [] || IsPrintable(a[|a| - 1])
    requires b != [] && IsPrintable(b[0]) && IsPrintable(b[|b| - 1])
    ensures Encoded(a + run + b + last) == Encoded(a) + Encoded(run) + Encoded(b) + Encoded(last)
  {
    EncodedAppend(b, last);
    assert (b + last)[0] == b[0];
    EncodedAppend(run, b + last);
    EncodedAppend(a, run + (b + last));
    Regroup(a, run, b, last);
    Regroup(Encoded(a), Encoded(run), Encoded(b), Encoded(last));
  }

  lemma Regroup(a: seq<Unit>, b: seq<Unit>, c: seq<Unit>, d: seq<Unit>)
    ensures a + b + c + d == a + (b + (c + d))
  {
  }

  /** Two blocks written out between plain parts. */
  lemma Flatten(a: seq<Unit>, m: seq<Unit>, b: seq<Unit>, n: seq<Unit>)
    ensures a + ([AMPERSAND] + m + [HYPHEN]) + b + ([AMPERSAND] + n + [HYPHEN])
         == a + [AMPERSAND] + m + [HYPHEN] + b + [AMPERSAND] + n + [HYPHEN]
  {
  }

  /** The mailbox name comes back from its encoding. */
  lemma MailboxExampleDecodes()
    ensures Decoded(Mail + [AMPERSAND] + TaipeiBlock + [HYPHEN] + Slash + [AMPERSAND] + JapaneseBlock + [HYPHEN]) ==
      Ok(Mail + Taipei + Slash + Japanese)
  {
    MailboxExample();
    RoundTrip(Mail + Taipei + Slash + Japanese);
  }

  /** "&" alone is escaped as "&-", and "&-" decodes to "&". */
  lemma AmpersandEscape()
    ensures Encoded(Units("&")) == Units("&-")
    ensures Decoded(Units("&-")) == Ok(Units("&"))
  {
    EncodedOne(AMPERSAND);
    assert Units("&-") == [AMPERSAND, HYPHEN] + [];
    DecodedEscape([]);
    assert Decoded([]) == Ok([]);
    assert [AMPERSAND] + [] == Units("&");
  }

  /** "Hello & World" is written "Hello &- World" and read back. */
  lemma HelloWorld()
    ensures Encoded(Units("Hello ") + Units("&") + Units(" World")) == Units("Hello ") + Units("&-") + Units(" World")
  {
    PlainSegment("Hello ");
    PlainSegment(" World");
    assert Units("&") == [AMPERSAND] && Units("&-") == [AMPERSAND, HYPHEN];
    EscapedBetween(Units("Hello "), Units(" World"));
  }

  lemma HelloWorldDecodes()
    ensures Decoded(Units("Hello ") + Units("&-") + Units(" World")) == Ok(Units("Hello ") + Units("&") + Units(" World"))
  {
    HelloWorld();
    RoundTrip(Units("Hello ") + Units("&") + Units(" World"));
  }

  /** An "&" between two pieces of plain text is escaped in place. */
  lemma EscapedBetween(a: seq<Unit>, b: seq<Unit>)
    requires Encoded(a) == a && a != [] && IsPrintable(a[|a| - 1])
    requires Encoded(b) == b
    ensures Encoded(a + [AMPERSAND] + b) == a + [AMPERSAND, HYPHEN] + b
  {
    EncodedAppend(a + [AMPERSAND], b);
    EncodedAppend(a, [AMPERSAND]);
    EncodedOne(AMPERSAND);
  }

  /** A wire string that ends in an unescaped "&" is malformed. */
  lemma TrailingAmpersandRejected()
    ensures Decoded(Units("A&")) == FormatError
  {
    assert Units("A&") == [0x41] + [AMPERSAND];
    DecodedTrailingAmpersand([0x41]);
  }

  /** A shift block whose digits stop one short of a whole octet pair is malformed:
      "&A-" holds a single modified BASE64 digit. */
  lemma LoneDigitRejected()
    ensures Decoded(Units("&A-")) == FormatError
  {
    assert Units("&A-") == [AMPERSAND] + [0x41] + [HYPHEN] + [];
    DecodedBlock([0x41], []);
  }
}
