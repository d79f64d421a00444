# GPS.Parser in Dafny

This is a model of the line-handling core of the TinyCLR GPS library
`src/GPS.Parser/Lib/GPS.cs`. The model covers:

- `GprmcParser.Parse`, which turns an NMEA 0183 `$GPRMC` sentence into a
  `GpsPoint`, and `GprmcParser.IsCheckSumGood`, which checks the sentence's
  XOR checksum;
- the `Reader`'s `ProcessBytes`, which joins the text read from the serial
  port into lines, trims them, and hands them to the `RawLine` and `GpsData`
  subscribers. A new point is raised only when it is far enough from the last
  one;
- the `Start`/`Stop` running flag of the `Reader`;
- the `GpsPoint` class, modelled as a value.

Modules:

- `Outcomes` holds the `Option` type.
- `Text` holds the .NET string operations the code uses: `IndexOf`,
  `LastIndexOf`, `Split` on one character, and `Trim` with the .NET
  white-space set.
- `Numbers` holds `int.Parse`, `double.Parse` and `Convert.ToInt32(s, 16)` as
  partial decoders that return `None` where .NET would throw.
- `Calendar` holds the `DateTime` constructor's validity rules.
- `Checksum` holds `IsCheckSumGood`. It is a three-way result (true, false,
  throws), because the method can throw.
- `Gprmc` holds `Parse` and the `GpsPoint`/`ParseResult` types.
- `Reader` holds `ProcessBytes`, the per-chunk loop of `ThreadProc`, and
  `Start`/`Stop`.

The reader is a pure state machine. Its state is `_data` and `_lastPoint`, and
each call returns the new state, the subscriber calls it made in order, and
whether an exception escaped. The reader takes its collaborators as
parameters:

- the distance calculator;
- the parser. `Reader.Wired` fixes the parser to `Gprmc.Parse`;
- whether each event has a subscriber;
- the seconds component of the time since the last point.

Where the code and its documentation disagree, the model follows the code:

- Significance is measured against the last point *parsed*, not the last point
  raised. GPS.cs:304 updates `_lastPoint` whether or not the point was raised.
- The override meant to raise a point once a minute has passed (GPS.cs:295-302)
  tests `TimeSpan.Seconds > 60`. The seconds component never exceeds 59, so the
  override never fires; `Reader.Seconds` carries that range.
- `ProcessBytes` continues its loop with only the second newline-separated
  piece, and that piece holds no newline. So one chunk completes at most one
  line, and text after a second newline in the same chunk is lost
  (`Reader.SecondNewlineDiscards`).
- The checksum's exceptions escape `Parse` because the test runs before the
  `try` block. Inside `ProcessBytes` such an exception abandons the chunk and
  leaves `_data` holding the trimmed line.
- The frame test of `IsCheckSumGood` also passes a two-character sentence that
  starts with `$` and has no `*`, since `LastIndexOf` then returns `-1 ==
  Length - 3`. Such a sentence then throws in `Convert.ToInt32`.

## Model

| member | source | states |
|---|---|---|
| Checksum.IsCheckSumGood | src/GPS.Parser/Lib/GPS.cs:107-128 | a sentence is accepted only if it begins with `$`, has its last `*` three characters from the end, and has at least one character between them |
| Checksum.CheckSumSpec | src/GPS.Parser/Lib/GPS.cs:107-128 | the answer for every sentence: false when the frame test fails; an exception exactly when the two characters after `*` do not decode as hexadecimal (two digits, or `+` and one) or nothing lies between `$` and `*`; true exactly when the declared value equals the XOR of the text between them |
| Checksum.ChecksumOf | src/GPS.Parser/Lib/GPS.cs:120-125 | the loop that starts from the first character and XORs in the rest computes the running XOR of the whole body |
| Checksum.XorCancel | src/GPS.Parser/Lib/GPS.cs:124 | XOR with a fixed value is injective, so a different character gives a different running value |
| Checksum.XorOfChange | src/GPS.Parser/Lib/GPS.cs:120-125 | changing any one character of the body changes its checksum |
| Checksum.SealAccepted | src/GPS.Parser/Lib/GPS.cs:107-128 | round trip: a sentence sealed with the checksum an NMEA talker writes (upper-case hex of the XOR) is accepted |
| Checksum.SealAnyCase | src/GPS.Parser/Lib/GPS.cs:107-128 | a sentence `$body*HH` with two hex digits after `*` is accepted exactly when those digits, upper-cased, are the checksum a talker writes for the body, so a lower-case checksum is accepted too |
| Checksum.TamperedRejected | src/GPS.Parser/Lib/GPS.cs:107-128 | a sealed sentence with one body character changed is rejected as bad, and does not throw |
| Numbers.DigitsValue | src/GPS.Parser/Lib/GPS.cs:43-54 | the model of `int.Parse` succeeds exactly on non-empty all-digit text |
| Numbers.DigitsBound | src/GPS.Parser/Lib/GPS.cs:43-54 | a field of n digits decodes to a value below 10^n, so a two-digit year, month or millisecond field is below 100 |
| Numbers.DigitsRoundTrip | src/GPS.Parser/Lib/GPS.cs:43-54 | the model of `int.Parse` inverts zero-padded rendering, and a decoded field is the zero-padded rendering of its value |
| Numbers.DecimalValue | src/GPS.Parser/Lib/GPS.cs:62-63 | the model of `double.Parse` decodes only non-empty text, never to a negative value |
| Numbers.DecimalAccepts | src/GPS.Parser/Lib/GPS.cs:62-63 | the model of `double.Parse` fails exactly on text that is not digits with at most one point and at least one digit |
| Numbers.DecimalOfInteger | src/GPS.Parser/Lib/GPS.cs:83-84 | a decimal without a point decodes to the integer its digits spell |
| Numbers.DecimalOfParts | src/GPS.Parser/Lib/GPS.cs:62-63 | digits around a single point decode to whole part plus the fraction scaled by its number of digits |
| Numbers.ParseHex2 | src/GPS.Parser/Lib/GPS.cs:117-118 | the model of `Convert.ToInt32(s, 16)` decodes the two checksum characters exactly when both are hexadecimal digits in either case, or a `+` sign and one such digit, and then to a value below 256; `+H` is worth `H` |
| Numbers.Hex2RoundTrip | src/GPS.Parser/Lib/GPS.cs:117-118 | decoding the two upper-case hex digits written for a byte gives the byte back |
| Numbers.Hex2Decoded | src/GPS.Parser/Lib/GPS.cs:117-118 | the converse: two hex digits in either case decode to the value whose upper-case rendering they spell, so `4a` and `4A` both decode to 0x4A |
| Calendar.ValidDates | src/GPS.Parser/Lib/GPS.cs:55 | the `DateTime` constructor, given a valid year, month and time, accepts every day up to the 28th, the 29th except in February of a common year, the 30th except in February, the 31st only in the seven long months, and nothing outside 1-31 |
| Calendar.CenturyLeapYears | src/GPS.Parser/Lib/GPS.cs:43-55 | for the years 2000-2099 that a two-digit field names, leap years are exactly those divisible by four |
| Calendar.DaysInMonth | src/GPS.Parser/Lib/GPS.cs:55 | the `DateTime` constructor's month lengths lie between 28 and 31, and February has 29 days exactly in leap years |
| Text.IndexOf | src/GPS.Parser/Lib/GPS.cs:109 | the position of the first occurrence of a character, or -1 exactly when it does not occur |
| Text.LastIndexOf | src/GPS.Parser/Lib/GPS.cs:110 | the position of the last occurrence of a character, or -1 exactly when it does not occur |
| Text.Split | src/GPS.Parser/Lib/GPS.cs:270 | splitting gives at least one piece and no piece contains the separator; the first piece is the text before the first separator; a text without the separator is its own single piece |
| Text.JoinSplit | src/GPS.Parser/Lib/GPS.cs:26 | joining the pieces with the separator gives back the split text |
| Text.SplitJoin | src/GPS.Parser/Lib/GPS.cs:26 | splitting separator-free pieces joined by the separator gives the pieces back |
| Text.SplitCount | src/GPS.Parser/Lib/GPS.cs:28 | the number of fields is one more than the number of commas |
| Text.TrimSpec | src/GPS.Parser/Lib/GPS.cs:272 | `Trim` removes exactly the leading and trailing .NET white space: the result is a slice that neither begins nor ends with white space, and everything cut off is white space |
| Text.TrimUnique | src/GPS.Parser/Lib/GPS.cs:272 | a text of white space, a core without white space at its ends, and white space trims to that core |
| Text.TrimIdempotent | src/GPS.Parser/Lib/GPS.cs:272 | trimming twice is trimming once |
| Gprmc.CoordinateValue | src/GPS.Parser/Lib/GPS.cs:57-77 | a coordinate field `DDMM.MMMM` (or `DDDMM.MMMMM`) decodes to its whole degrees plus its decimal minutes over sixty, for any digits |
| Gprmc.ParseFields | src/GPS.Parser/Lib/GPS.cs:24-104 | nothing inside the `try` block escapes: every failure is no fix |
| Gprmc.ParseFieldsSound | src/GPS.Parser/Lib/GPS.cs:26-96 | every point that comes out has 13 fields with status `A` and widths 6, 9, 10 and 11, and those fields describe it |
| Gprmc.ParseFieldsComplete | src/GPS.Parser/Lib/GPS.cs:26-96 | fields of that shape that describe a point yield exactly that point |
| Gprmc.Parse | src/GPS.Parser/Lib/GPS.cs:15-22 | `Parse` throws exactly when the checksum test throws, and returns a point only after a good checksum |
| Gprmc.ParseSpec | src/GPS.Parser/Lib/GPS.cs:15-105 | a point comes out exactly when the checksum is good and the fields are shaped and describe it. Such a point is in the years 2000-2099, has fewer than 100 milliseconds, has non-negative speed and bearing, and is negative in latitude or longitude only for `S` or `W` |
| Gprmc.TimeSeparatorIgnored | src/GPS.Parser/Lib/GPS.cs:51-54 | the character between the seconds and the two fraction digits of the time field has no effect on the result |
| Reader.IsSignificant | src/GPS.Parser/Lib/GPS.cs:283-302 | a point is significant exactly when there is no last point or it lies at least the minimum distance from it, whatever the elapsed seconds |
| Reader.Dispatch | src/GPS.Parser/Lib/GPS.cs:273-317 | an empty line does nothing; when the parser throws, nothing is raised and the last point is kept |
| Reader.DispatchSpec | src/GPS.Parser/Lib/GPS.cs:273-317 | only a `$GPRMC` line with a `GpsData` subscriber is parsed. Its exception is the only way out. Every parsed point becomes the last point. A point is raised exactly when parsed and far enough away. Every other non-empty line reaches `RawLine`, after any point |
| Reader.FirstLine | src/GPS.Parser/Lib/GPS.cs:270 | the piece kept after a newline holds no newline, and a text without one is kept whole |
| Reader.ProcessBytes | src/GPS.Parser/Lib/GPS.cs:266-323 | `_data` never comes to hold a newline, and a chunk without a newline is only appended to it |
| Reader.RunsOnce | src/GPS.Parser/Lib/GPS.cs:268-322 | a chunk with a newline runs the loop body once: the completed line is dispatched, and the text up to the next newline is kept, or the trimmed line when the parser threw |
| Reader.OneNewline | src/GPS.Parser/Lib/GPS.cs:266-323 | a chunk with one newline dispatches `_data` plus the text before it, and keeps the text after it |
| Reader.SecondNewlineDiscards | src/GPS.Parser/Lib/GPS.cs:319-322 | text after a second newline in one chunk is dropped, as if the chunk had ended there |
| Reader.Feed | src/GPS.Parser/Lib/GPS.cs:237-258 | across successive reads, with each chunk's exception caught, `_data` never holds a newline |
| Reader.FeedTwo | src/GPS.Parser/Lib/GPS.cs:237-258 | two reads that each complete without an exception compose: the final state is the second's and the events are concatenated in order |
| Reader.SplitLineReassembled | src/GPS.Parser/Lib/GPS.cs:268-322 | a line split across two reads reaches `RawLine` reassembled and trimmed, after the line the first read completed |
| Reader.SplitFixReassembled | src/GPS.Parser/Lib/GPS.cs:268-310 | with only a `GpsData` subscriber, a fix sentence split across two reads reaches the parser reassembled; it becomes the last point and is raised exactly when significant |
| Reader.SentenceIsTrimmed | src/GPS.Parser/Lib/GPS.cs:272 | a sentence with a good checksum begins with `$` and ends with a hex digit, so trimming leaves it unchanged |
| Reader.FixLineParsed | src/GPS.Parser/Lib/GPS.cs:272-280 | a `$GPRMC` sentence that `Parse` accepts reaches the parser unchanged after trimming |
| Reader.FixStep | src/GPS.Parser/Lib/GPS.cs:278-310 | a complete fix sentence read on its own becomes the last point, and is raised exactly when significant |
| Reader.CloseFixSuppressed | src/GPS.Parser/Lib/GPS.cs:283-310 | of two fixes closer than the minimum distance, only the first is raised, yet the second becomes the last point |
| Reader.Start | src/GPS.Parser/Lib/GPS.cs:198-211 | `Start` succeeds exactly when the reader was stopped, leaves it started, and touches nothing else |
| Reader.Stop | src/GPS.Parser/Lib/GPS.cs:213-228 | `Stop` succeeds exactly when the reader was started, leaves it stopped, and touches nothing else |
| Reader.StartStopCycle | src/GPS.Parser/Lib/GPS.cs:198-228 | stopping undoes starting, and a second start or stop in a row reports failure and changes nothing |

## Left out

- `GeoDistanceCalculator` and `ToRadians` (GPS.cs:131-166) are not modelled: the haversine formula is floating-point trigonometry. The reader takes the distance function as a parameter (`Config.distance`).
- The worker thread, the lock, `Join(5000)`/`Abort`, `Thread.Sleep` and the serial port are not modelled. `Reader.Feed` takes the chunks a run of `ThreadProc` reads, and `Start`/`Stop` model only the running flag.
- The UTF-8 decoding of the bytes read is not modelled. Chunks are already text. A multi-byte character cut between two reads is not modelled.
- `DateTime.Now` and `_lastDateTime` are not modelled. Each read carries the seconds component of the elapsed time instead. `_lastDateTime` is written only in the override branch, which cannot run.
- `Debug.WriteLine` output is not modelled.
- Reals are exact. The `double` rounding of `double.Parse` and of `mins / 60` is not modelled.
- Numbers.DigitsValue: does not model `int.Parse`'s tolerance of surrounding white space and a leading sign. A field such as ` 5` or `+5` is a failure here, and .NET would decode it. `Gprmc.ParseSpec`'s bounds (the 2000s, fewer than 100 milliseconds) rest on this unsigned decoder.
- Numbers.DecimalValue: does not model `double.Parse`'s sign, white space, exponent, thousands separators, `Infinity`/`NaN` or culture-dependent decimal separator. Only digits with at most one `.` decode, so `Gprmc.ParseSpec`'s non-negative speed and bearing rest on this decoder.
- Numbers.ParseHex2: follows `Convert.ToInt32(s, 16)` of the .NET base library, which skips a leading `+` and refuses white space and `-`. The TinyCLR runtime's own implementation is not part of this model. Runtimes derived from the .NET Micro Framework also trim spaces, so they would accept a field such as ` A` that the model rejects.
- Text.StartsWith: stands for `line.IndexOf("$GPRMC") == 0`, which .NET compares culture-sensitively. The model compares characters ordinally.
- Text.IndexOf: GPS.cs:109 calls the culture-sensitive string overload `IndexOf("$")`. The model searches character by character. Characters a culture ignores, such as a soft hyphen, can change the position .NET reports, and the model does not follow that.
- Text.LastIndexOf: GPS.cs:110 calls the culture-sensitive string overload `LastIndexOf("*")`, with the same difference as `Text.IndexOf`.
- Characters are Unicode scalar values, not UTF-16 code units. A character outside the Basic Multilingual Plane is one code here and two in C#.
- Subscribers are modelled as present or absent (`Config.hasGpsData`, `Config.hasRawLine`). Several handlers on one event, and a handler that throws, are not modelled.
- Reader.IsSignificant: `GpsPoint` (GPS.cs:326-333) is a mutable class, and GPS.cs:304 and GPS.cs:309 share one object between `_lastPoint` and each `GpsData` handler. A handler that changes a point's coordinates is not modelled: the distance at GPS.cs:286-287 is always measured from the point as parsed.
- `GpsPoint` is returned through `ParseResult.Fix`, and `null` is `NoFix`. A `null` line passed to `Parse` is not modelled, because the reader never passes one.
- The example program `Program.cs` is not part of this model.
