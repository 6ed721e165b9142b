# Modified UTF-7 mailbox names and DateTime boundaries, in Dafny

This project models two parts of the `Common` C# library.

**The modified UTF-7 codec** (`Common/Text/ModifiedUTF7.cs`) is the mailbox-name encoding of
section 5.1.3 of RFC 3501. Text is a sequence of UTF-16 code units; printable US-ASCII
(0x20 to 0x7E) stands for itself, `&` is written `&-`, and every maximal run of other units is
written as a shift block: `&`, then the modified BASE64 of the run's big-endian bytes, then `-`.
Modified BASE64 is the base64 of section 4 of RFC 4648 with `,` in place of `/` and with the
`=` padding removed; the decoder restores the padding from the length.

- `text.dfy` (module `Text`): code units, bytes, the `Result` of an operation that can throw
  `FormatException`, and the .NET primitives the codec calls, as pure functions:
  `String.Replace`, `String.IndexOf`, `Encoding.BigEndianUnicode` (two bytes per unit, high byte
  first) and `Encoding.ASCII` on ASCII text.
- `base64.dfy` (module `Base64`): `Convert.ToBase64String` / `Convert.FromBase64String` as
  section 4 of RFC 4648 defines them, with their round trip.
- `modified_utf7.dfy` (module `ModifiedUtf7`): `ToModifiedBase64` and `FromModifiedBase64` as
  functions; `ToModifiedUTF7` and `FromModifiedUTF7` as methods with the source's loops (the
  sentinel `shiftFrom`, the index that the decoder advances inside its body, the nested scan of a
  shift block), each proved equal to a recursive specification function (`Encoded`, `Decoded`).
  The properties of the format and the round trip are lemmas about those functions.
- `modified_utf7_vectors.dfy` (module `ModifiedUtf7Vectors`): the example of RFC 3501,
  `~peter/mail/台北/日本語` ⇄ `~peter/mail/&U,BTFw-/&ZeVnLIqe-`, and the other worked cases.

**The DateTime extensions** (`Common.DateTimeExtensions/DateTimeExtensions.cs`) give the first
and last instant of an hour, a day and a month, and the billing cut-off window. They are
modelled in `date_time_extensions.dfy` (module `DateTimeExtensions`) over a record of year,
month, day, hour, minute, second and millisecond in the proleptic Gregorian calendar, with
`DateTime.DaysInMonth`, `AddMonths` and `AddDays(1)` written out.

Decisions:

- The decoder's `FromModifiedBase64` computes `4 - len & 3`, which C# parses as `(4 - len) & 3`;
  on two's-complement integers that is `(4 - len) % 4` with Dafny's Euclidean `%`. The value is
  always in 0..3, so the `padding == 4` branch of the source is dead; the model keeps it and
  proves it unreachable.
- A shift block that reaches the end of the input without its `-` is decoded as if it had one,
  as the source does (it never fails for that reason).
- A run of units and a wire string are both `seq<Unit>` with `Unit` an integer in
  `[0, 0x10000)`, so surrogate halves are independent units.

## Model

| member | source | states |
|---|---|---|
| `Text.BigEndianBytesAt` | Common/Text/ModifiedUTF7.cs:68 | `Encoding.BigEndianUnicode.GetBytes` gives two bytes per unit: unit i becomes byte 2i (high) and byte 2i+1 (low) |
| `Text.BigEndianUnits` | Common/Text/ModifiedUTF7.cs:158 | `GetString` succeeds exactly on an even byte count and unit i is byte 2i times 256 plus byte 2i+1 |
| `Text.BigEndianRoundTrip` | Common/Text/ModifiedUTF7.cs:158 | reading back the big-endian bytes of any units gives those units |
| `Text.Replace` | Common/Text/ModifiedUTF7.cs:69 | `String.Replace(char, char)` keeps the length, leaves every other character in place, puts the new character wherever the old one stood, and leaves none of the old one behind |
| `Text.IndexOf` | Common/Text/ModifiedUTF7.cs:70 | `String.IndexOf(char)` is -1 or a position inside the string |
| `Text.IndexOfFirst` | Common/Text/ModifiedUTF7.cs:70 | `IndexOf` is -1 exactly when the character is absent, and otherwise points at its first occurrence |
| `Text.ReplaceBack` | Common/Text/ModifiedUTF7.cs:141 | replacing `/` by `,` and then `,` by `/` restores any text without `,` |
| `Text.AsciiBytes` | Common/Text/ModifiedUTF7.cs:89 | `Encoding.ASCII.GetBytes` on ASCII text keeps every character as its own byte |
| `Base64.Encode` | Common/Text/ModifiedUTF7.cs:69 | `Convert.ToBase64String` of n octets is ceil(n/3)·4 characters, each an alphabet digit or `=` |
| `Base64.Decode` | Common/Text/ModifiedUTF7.cs:151-155 | `Convert.FromBase64String` accepts only a whole number of 4-character groups |
| `Base64.EncodeDigitsAlphabet` | Common/Text/ModifiedUTF7.cs:69 | every digit `Convert.ToBase64String` writes belongs to the RFC 4648 alphabet |
| `Base64.EncodeDigitsLength` | Common/Text/ModifiedUTF7.cs:69 | n octets give ceil(8n/6) digits before the padding |
| `Base64.EncodeLength` | Common/Text/ModifiedUTF7.cs:69 | the padding is 0 to 2 `=` and brings the byte count to a multiple of 3, a whole number of 4-digit groups |
| `Base64.DecodeAlphabet` | Common/Text/ModifiedUTF7.cs:151-155 | `Convert.FromBase64String` accepts only alphabet digits and `=` |
| `Base64.RoundTrip` | Common/Text/ModifiedUTF7.cs:151-155 | `FromBase64String(ToBase64String(b)) == b` for every octet sequence |
| `ModifiedUtf7.ToModifiedBase64` | Common/Text/ModifiedUTF7.cs:66-80 | the result is the unpadded RFC 4648 digits of the big-endian bytes with every `/` written `,` |
| `ModifiedUtf7.StripPadding` | Common/Text/ModifiedUTF7.cs:70-79 | cutting the replaced base64 at its first `=` (or keeping it whole when there is none) leaves exactly the unpadded digits |
| `ModifiedUtf7.ModifiedBase64Digits` | Common/Text/ModifiedUTF7.cs:66-80 | `ToModifiedBase64` is the RFC 4648 digits with `/` replaced by `,`; every character is a modified-BASE64 digit and printable; no `=` and no `-` occurs |
| `ModifiedUtf7.ModifiedBase64Length` | Common/Text/ModifiedUTF7.cs:66-80 | n units give ceil(16n/6) digits, so the length mod 4 is never 1 |
| `ModifiedUtf7.Padding` | Common/Text/ModifiedUTF7.cs:143-145 | `4 - len & 3` lies in 0..3, completes len to a multiple of 4, and is 3 exactly when len mod 4 is 1 (so the `padding == 4` branch is dead) |
| `ModifiedUtf7.FromModifiedBase64` | Common/Text/ModifiedUTF7.cs:136-159 | a run whose length mod 4 is 1 throws `FormatException` |
| `ModifiedUtf7.FromModifiedBase64Alphabet` | Common/Text/ModifiedUTF7.cs:141-155 | a run that decodes holds only modified-BASE64 digits (and the `/` and `=` the library also takes) |
| `ModifiedUtf7.DigitsRecovered` | Common/Text/ModifiedUTF7.cs:141-143 | mapping `,` back to `/` restores the base64 digits, and the padding computed from their length is the padding that was stripped |
| `ModifiedUtf7.ModifiedBase64RoundTrip` | Common/Text/ModifiedUTF7.cs:136-159 | `FromModifiedBase64(ToModifiedBase64(u))` gives back u for every run of units |
| `ModifiedUtf7.RunLength` | Common/Text/ModifiedUTF7.cs:46-52 | the leading run is all non-printable units and stops at a printable one or at the end |
| `ModifiedUtf7.EncodedOne` | Common/Text/ModifiedUTF7.cs:35-44 | a printable unit is written as itself, `&` as `&-` |
| `ModifiedUtf7.EncodedPlain` | Common/Text/ModifiedUTF7.cs:35-44 | printable text without `&` is its own encoding |
| `ModifiedUtf7.EncodedPrintable` | Common/Text/ModifiedUTF7.cs:23-61 | every character of an encoding is in 0x20..0x7E |
| `ModifiedUtf7.EncodedRun` | Common/Text/ModifiedUTF7.cs:46-61 | a maximal run of non-printable units becomes exactly one closed block `&` + modified BASE64 + `-` |
| `ModifiedUtf7.EncodedBetween` | Common/Text/ModifiedUTF7.cs:25-33 | a run between printable text is written as one closed block between the encodings of its neighbours |
| `ModifiedUtf7.EncodedEnd` | Common/Text/ModifiedUTF7.cs:55-61 | a run that reaches the end of the input is still closed by `-` |
| `ModifiedUtf7.EncodedAppend` | Common/Text/ModifiedUTF7.cs:19-53 | text cut next to a printable unit is encoded piece by piece |
| `ModifiedUtf7.CloseShift` | Common/Text/ModifiedUTF7.cs:25-33 | closing the open shift at a printable unit completes the encoding of everything before it |
| `ModifiedUtf7.EncodedFinish` | Common/Text/ModifiedUTF7.cs:55-61 | after the loop, flushing the open shift (if any) completes the encoding of the whole input |
| `ModifiedUtf7.ToModifiedUTF7` | Common/Text/ModifiedUTF7.cs:14-64 | the loop with the sentinel `shiftFrom` produces exactly `Encoded(str)`: literals, `&-` escapes and one block per maximal run |
| `ModifiedUtf7.HyphenIndex` | Common/Text/ModifiedUTF7.cs:118-127 | the scan of a block stops at the first `-`, or at the end of the input when there is none |
| `ModifiedUtf7.DecodedPlain` | Common/Text/ModifiedUTF7.cs:84-87 | input without `&` decodes to itself |
| `ModifiedUtf7.DecodedLiteral` | Common/Text/ModifiedUTF7.cs:97-101 | a byte other than `&` is appended as itself |
| `ModifiedUtf7.DecodedTrailingAmpersand` | Common/Text/ModifiedUTF7.cs:103-107 | an `&` as the last byte throws `FormatException`, whatever precedes it |
| `ModifiedUtf7.DecodedEscape` | Common/Text/ModifiedUTF7.cs:109-114 | `&-` decodes to one `&` and consumes both bytes |
| `ModifiedUtf7.DecodedBlock` | Common/Text/ModifiedUTF7.cs:116-130 | a shift block is the bytes after `&` up to the first `-`, that `-` is consumed, and the block's digits go through `FromModifiedBase64` (whose failure fails the whole decoding) |
| `ModifiedUtf7.DecodedOpenBlock` | Common/Text/ModifiedUTF7.cs:118-130 | a block without a closing `-` is decoded from the rest of the input without error of its own |
| `ModifiedUtf7.ScanBlock` | Common/Text/ModifiedUTF7.cs:116-127 | the nested scan collects the bytes from its start up to (not including) the next `-` or the end, and stops on that `-` |
| `ModifiedUtf7.BlockStepAt` | Common/Text/ModifiedUTF7.cs:116-131 | one step of the decoder at a shift block: a failing block fails the decoding, a good one is followed by the decoding of what comes after its `-` |
| `ModifiedUtf7.FromModifiedUTF7` | Common/Text/ModifiedUTF7.cs:82-134 | the outer loop with its in-body index advance and the nested scan returns exactly `Decoded(str)`; input without `&` comes back unchanged |
| `ModifiedUtf7.RoundTrip` | Common/Text/ModifiedUTF7.cs:14-134 | `Decoded(Encoded(s)) == Ok(s)` for every sequence of UTF-16 units |
| `ModifiedUtf7.EncodeThenDecode` | Common/Text/ModifiedUTF7.cs:14-134 | `FromModifiedUTF7` applied to the output of `ToModifiedUTF7` returns the input: the output is ASCII, so it meets the decoder's demand, and the round trip holds |
| `ModifiedUtf7Vectors.TaipeiDigits` | Common/Text/ModifiedUTF7.cs:66-80 | `台北` is `U,BTFw` in modified BASE64 |
| `ModifiedUtf7Vectors.JapaneseDigits` | Common/Text/ModifiedUTF7.cs:66-80 | `日本語` is `ZeVnLIqe` in modified BASE64 |
| `ModifiedUtf7Vectors.MailboxExample` | Common/Text/ModifiedUTF7.cs:14-64 | `~peter/mail/台北/日本語` is written `~peter/mail/&U,BTFw-/&ZeVnLIqe-` |
| `ModifiedUtf7Vectors.MailboxExampleDecodes` | Common/Text/ModifiedUTF7.cs:82-134 | `~peter/mail/&U,BTFw-/&ZeVnLIqe-` decodes to `~peter/mail/台北/日本語` |
| `ModifiedUtf7Vectors.AmpersandEscape` | Common/Text/ModifiedUTF7.cs:36-40 | `&` is written `&-` and `&-` decodes to `&` |
| `ModifiedUtf7Vectors.HelloWorld` | Common/Text/ModifiedUTF7.cs:35-44 | `Hello & World` is written `Hello &- World` |
| `ModifiedUtf7Vectors.HelloWorldDecodes` | Common/Text/ModifiedUTF7.cs:109-114 | `Hello &- World` decodes to `Hello & World` |
| `ModifiedUtf7Vectors.TrailingAmpersandRejected` | Common/Text/ModifiedUTF7.cs:103-107 | `A&` is malformed |
| `ModifiedUtf7Vectors.LoneDigitRejected` | Common/Text/ModifiedUTF7.cs:143-147 | `&A-` (one digit, padding 3) is malformed |
| `DateTimeExtensions.DaysInMonth` | Common.DateTimeExtensions/DateTimeExtensions.cs:71 | February has 29 days in a Gregorian leap year and 28 otherwise; April, June, September and November have 30; every other month has 31 |
| `DateTimeExtensions.AddMonths` | Common.DateTimeExtensions/DateTimeExtensions.cs:109 | `AddMonths(n)` moves the month index by n, clamps the day to the new month's length and keeps the time of day |
| `DateTimeExtensions.PreviousDay` | Common.DateTimeExtensions/DateTimeExtensions.cs:83 | the day before a date, at the same time, is the one that `AddDays(1)` takes to it |
| `DateTimeExtensions.AddOneDay` | Common.DateTimeExtensions/DateTimeExtensions.cs:83 | `AddDays(1)` gives a later date at the same time: the next day of the month, or day 1 of the next month after its last day |
| `DateTimeExtensions.BeginOfHour` | Common.DateTimeExtensions/DateTimeExtensions.cs:18-21 | same date and hour with minute, second and millisecond 0; the source lies in the hour that starts there |
| `DateTimeExtensions.EndOfHour` | Common.DateTimeExtensions/DateTimeExtensions.cs:28-31 | same date and hour at 59:59.999; the source lies in the hour that ends there |
| `DateTimeExtensions.BeginOfDay` | Common.DateTimeExtensions/DateTimeExtensions.cs:38-41 | same date at 00:00:00.000, not after the source |
| `DateTimeExtensions.EndOfDay` | Common.DateTimeExtensions/DateTimeExtensions.cs:48-51 | same date at 23:59:59.999, not before the source |
| `DateTimeExtensions.BeginOfMonth` | Common.DateTimeExtensions/DateTimeExtensions.cs:58-61 | day 1 of the same month at midnight, not after the source |
| `DateTimeExtensions.EndOfMonth` | Common.DateTimeExtensions/DateTimeExtensions.cs:68-73 | day `DaysInMonth(year, month)` of the same month at 23:59:59.999, not before the source |
| `DateTimeExtensions.WindowsNest` | Common.DateTimeExtensions/DateTimeExtensions.cs:18-73 | begin of month ≤ begin of day ≤ begin of hour ≤ source ≤ end of hour ≤ end of day ≤ end of month |
| `DateTimeExtensions.CutOffDay` | Common.DateTimeExtensions/DateTimeExtensions.cs:96-105 | the cut-off day of a month is the last day when `cutOffDay <= 0`, otherwise `min(cutOffDay, DaysInMonth)` |
| `DateTimeExtensions.CutOffDateFixed` | Common.DateTimeExtensions/DateTimeExtensions.cs:107-116 | `EndOfCutOff` of a cut-off date is that date itself |
| `DateTimeExtensions.EndOfCutOff` | Common.DateTimeExtensions/DateTimeExtensions.cs:92-117 | midnight of a valid cut-off date on or after the source: the source's month when its day has not passed the cut-off day (always so when `cutOffDay <= 0`, giving the last day), otherwise the next month |
| `DateTimeExtensions.BeginOfCutOff` | Common.DateTimeExtensions/DateTimeExtensions.cs:81-84 | the day after the cut-off date of the source moved back one month: a valid midnight not after the source; the day before it is a cut-off date in the source's previous month exactly when the moved-back day is on or before that month's cut-off day, and otherwise in the source's own month |
| `DateTimeExtensions.BeginOfCutOffSkipsBack` | Common.DateTimeExtensions/DateTimeExtensions.cs:81-84 | for 2023-05-31 and cut-off day 30, `BeginOfCutOff` gives 2023-05-01, whose window ends on 2023-05-30 while the source's ends on 2023-06-30 |
| `DateTimeExtensions.BeginOfCutOffWindow` | Common.DateTimeExtensions/DateTimeExtensions.cs:81-117 | the first day of the window that holds the source: not after it, with the same `EndOfCutOff` as the source, while the day before it is a cut-off date and so lies in the previous window |

## Left out

- `Encoding.BigEndianUnicode.GetBytes` replaces a lone surrogate by U+FFFD; the model writes every unit as its two bytes unchanged.
- `Encoding.BigEndianUnicode.GetString` on an odd number of bytes decodes the trailing byte with a replacement character; the model treats an odd byte count as `FormatException`.
- Text.BigEndianUnits: `Encoding.BigEndianUnicode.GetString` (Common/Text/ModifiedUTF7.cs:158) replaces a lone surrogate by U+FFFD, so `&2AA-` (bytes D8 00) decodes to U+FFFD in .NET; the model returns the raw unit 0xD800.
- `Encoding.ASCII.GetBytes` replaces a non-ASCII character with `?`; `ModifiedUtf7.FromModifiedUTF7` requires the wire string to be ASCII whenever it contains `&` (without `&` it is returned unchanged, as in the source).
- `Convert.FromBase64String` skips white space inside its input; the model rejects every character outside the alphabet and `=`. Like the library, it ignores non-zero bits left over in the last digit.
- Exception messages: every `FormatException` is the single outcome `FormatError`.
- `DateTime` ticks below the millisecond: every result is built by `new DateTime(year, month, day[, hour, minute, second, millisecond])`, which sets them to zero, and the model has no field for them.
- DateTimeExtensions.EndOfHour, DateTimeExtensions.EndOfDay, DateTimeExtensions.EndOfMonth and DateTimeExtensions.WindowsNest: "the source is not after the end" holds at millisecond resolution only; a source at 23:59:59.9995 lies after `EndOfDay(source)` in .NET, and the model cannot express that instant.
- `DateTimeKind` and time zones: every constructed result has `DateTimeKind.Unspecified`, whatever the source's kind; the model does not carry a kind.
- The year range 1..9999 of `DateTime`: years are bounded below by 1 but not above, so the `ArgumentOutOfRangeException` of `AddMonths` / `AddDays` after year 9999 is not modelled. `DateTimeExtensions.BeginOfCutOff` and `DateTimeExtensions.BeginOfCutOffWindow` require the source not to lie in January of year 1, where `AddMonths(-1)` throws.
- `Common.Collections.Generic.IEnumerableExtensions/IEnumerableExtensions.cs` (shuffle, trimming, single, to-dictionary) is not part of this model: it wraps `System.Random` and LINQ.

## Findings

| source | as written | input that shows it | evidently intended | confidence | as-written member | corrected member |
|---|---|---|---|---|---|---|
| Common.DateTimeExtensions/DateTimeExtensions.cs:81-84 | `BeginOfCutOff` moves the source back one month with `AddMonths(-1)`, which clamps the day, and takes the day after that month's cut-off date | source 2023-05-31, cut-off day 30: the result is 2023-05-01, the start of the window ending 2023-05-30, although `EndOfCutOff` puts the source in the window ending 2023-06-30 | the first day of the window that `EndOfCutOff` assigns to the source (here 2023-05-31) | medium, not executed | `DateTimeExtensions.BeginOfCutOffSkipsBack` | `DateTimeExtensions.BeginOfCutOffWindow` |
