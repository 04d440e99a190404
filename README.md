# Received header field

A model of the value logic of the `Received` trace header field of the Ruby
`mail` library (`Mail::ReceivedField`): the trace field of RFC 5322,
section 3.6.7, whose date follows the date-time grammar of section 3.3.

A field is built once from its raw value (the text after `Received:`) and is
read-only afterwards, so it is the datatype `Received.ReceivedField`, holding
the raw value, the routing information and the optional timestamp computed by
`Received.NewField`. Building it:

- **Splitter** (`Splitter.Split`): the trimmed value either classifies, and is
  cut at its last top-level `;` into routing information and a date clause
  (`Structured`), or it does not, and is kept whole (`Unstructured`). A `;`
  inside a comment `( … )`, a domain literal `[ … ]` or a quoted string is not
  a separator; the lexical contexts are the automaton `Lexical.Step`.
- **Strict date parser** (`DateParser.ParseDateTime`): the clause, without one
  trailing comment such as `(GMT)`, must read as
  `[Www, ] DD Mon YYYY HH:MM[:SS] ±HHMM` (`DateGrammar.ParseSyntax`), and every
  number must be in range: a valid day of the month with leap years
  (`Calendar`), hour 0–23, minute and second 0–59, zone minutes 0–59. The
  offset is kept as written, in minutes east of UTC. Any failure gives no
  date, and there is no fallback from here.
- **Fallback extractor** (`Fallback.FallbackDate`): only for unclassified
  values. A one-pass scanner (`Fallback.Scan`, `Fallback.Feed`) finds the first
  `DD Mon YYYY` anywhere in the raw text; it is proved to agree with the
  reference definition `Fallback.FirstDate`. The date is taken at midnight,
  `+0000`.
- **Accessors**: `Name` is `"Received"`, `value` is the raw value, `info` and
  `dateTime` are the cached results, `FormattedDate` writes
  `Www, DD Mon YYYY HH:MM:SS ±ZZZZ` with the weekday computed from the date
  (`Calendar.Weekday`), `Decoded` removes one trailing top-level comment and
  trims, and `Encoded` is `"Received: " + Decoded + "\r\n"`.

Each line that the behaviour is pinned by is modelled in `Scenarios`, written
as the same text in short pieces, with a lemma stating everything the field
built from it holds.

Decoding a decoded value changes nothing exactly when that value does not
itself end in a comment (`Received.DecodedStable`).
`Received.DecodeTwice` shows why: `"a (b) (c)"` decodes to `"a (b)"`, and that
decodes to `"a"`.

## Model

| member | source | states |
|---|---|---|
| `Received.NewField` | spec/mail/fields/received_field_spec.rb:15-20 | the field keeps the raw value; a value that does not classify has empty info and the fallback date |
| `Received.NameAndValue` | spec/mail/fields/received_field_spec.rb:15-18 | `name` is always "Received" and `value` echoes the constructor input unchanged |
| `Received.InfoBeforeSeparator` | spec/mail/fields/received_field_spec.rb:15-20 | a classified value's info is the trimmed text before its last top-level `;` (or all of it when there is none), and its date is parsed from the trimmed text after that `;` alone |
| `Received.StructuredDate` | spec/mail/fields/received_field_spec.rb:20 | a strict date is always one the clause spells out, range-checked, with the offset the clause writes |
| `Received.UnclassifiedFallback` | spec/mail/fields/received_field_spec.rb:59-67 | an unclassified value has empty info, and its date, when present, is the first date in the raw text at 00:00:00 offset 0 |
| `Received.FallbackFormatted` | spec/mail/fields/received_field_spec.rb:66 | a fallback date is rendered as its weekday and calendar date followed by "00:00:00 +0000" |
| `Received.FormattedDate` | spec/mail/fields/received_field_spec.rb:55-56 | the formatted date is absent exactly when the date is absent, and the strict parser reads it back as the same date |
| `Received.DecodedFromValue` | spec/mail/fields/received_field_spec.rb:33-36 | decoding only removes: the decoded value is a prefix of the trimmed value, equal to it when it does not end in a comment, and otherwise that value with exactly one whole trailing comment and the whitespace before it cut off |
| `Received.EncodedFraming` | spec/mail/fields/received_field_spec.rb:23-26 | the header line is "Received: ", the decoded value and one CRLF, and with no CR in the value that CRLF is the only one |
| `Received.BlankValue` | spec/mail/fields/received_field_spec.rb:43-47 | a blank value has empty info and no date, decodes to "" and encodes to "Received: " and CRLF |
| `Received.DecodedStable` | spec/mail/fields/received_field_spec.rb:33-36 | decoding a decoded value changes nothing exactly when it does not itself end in a comment; one that does loses a further comment |
| `Received.DecodeTwice` | spec/mail/fields/received_field_spec.rb:33-36 | a value ending in two comments loses one comment per decoding, so decoding is not idempotent in general |
| `Received.StructuredValue` | spec/mail/fields/received_field_spec.rb:49-57 | for any routing info, `;` and rendered clause: info is kept whole, the date is present exactly when the numbers are in range, and the value decodes and encodes unchanged |
| `Received.StructuredValueWithComment` | spec/mail/fields/received_field_spec.rb:28-36 | the same with a trailing zone comment: info and date are unaffected, and decoding removes exactly the comment and the whitespace before it |
| `Splitter.Split` | spec/mail/fields/received_field_spec.rb:59-74 | the outcome is unstructured exactly when the trimmed value does not classify, and then holds the raw value; structured parts are trimmed |
| `Splitter.SplitSpec` | spec/mail/fields/received_field_spec.rb:19 | a structured split is at the last top-level `;`, or gives the whole value and an empty clause |
| `Splitter.SplitRecomposes` | spec/mail/fields/received_field_spec.rb:19 | info, a `;` and the clause make up the trimmed value up to whitespace |
| `Splitter.SplitAtSeparator` | spec/mail/fields/received_field_spec.rb:38-41 | comments, literals and `;` inside them in the info do not move the cut |
| `Splitter.ColonUnstructured` | spec/mail/fields/received_field_spec.rb:59-64 | a top-level colon in the routing info, in front of a top-level `;`, makes the value unstructured |
| `Splitter.ApostropheUnstructured` | spec/mail/fields/received_field_spec.rb:69-74 | a stray apostrophe ending the value at top level makes it unstructured |
| `Splitter.NoSeparator` | spec/mail/fields/received_field_spec.rb:59-64 | a value with no top-level `;` and no stray apostrophe is structured as all info and an empty clause, whatever colons it holds |
| `Splitter.SplitBlank` | spec/mail/fields/received_field_spec.rb:43-47 | a blank value splits into empty info and an empty clause |
| `Lexical.LastTopSpec` | spec/mail/fields/received_field_spec.rb:16-19 | LastTop finds the last top-level occurrence of a character, and none means there is none |
| `Comments.StripTrailingCommentSpec` | spec/mail/fields/received_field_spec.rb:33-36 | decoding removes only whitespace from a value not ending in a comment, and otherwise exactly one whole comment and the whitespace before it |
| `Comments.StripAppendedComment` | spec/mail/fields/received_field_spec.rb:33-36 | appending whitespace and a comment such as "(GMT)" to a top-level text is undone by decoding |
| `DateParser.ParseDateTime` | spec/mail/fields/received_field_spec.rb:20 | a date is returned exactly when the clause, without its trailing comment, reads under the grammar with all numbers in range, and it is that clause's timestamp |
| `DateParser.ParseRendered` | spec/mail/fields/received_field_spec.rb:49-57 | a clause in the grammar's form gives a date exactly when its numbers are in range |
| `DateParser.ParseRenderedWithComment` | spec/mail/fields/received_field_spec.rb:20 | a trailing comment after the clause does not change the date |
| `DateParser.HourOutOfRange` | spec/mail/fields/received_field_spec.rb:49-57 | an hour beyond 23 gives no date |
| `DateParser.KeepsOffset` | spec/mail/fields/received_field_spec.rb:28-31 | a parsed date keeps the literal sign and digits of the zone, never normalized to UTC |
| `DateGrammar.ParseRenderSyntax` | spec/mail/fields/received_field_spec.rb:20 | the grammar reads a rendered clause back as the same syntax |
| `DateFormat.FormatParse` | spec/mail/fields/received_field_spec.rb:66 | the strict parser reads a formatted date back as the same timestamp, offset included |
| `DateFormat.FormatInjective` | spec/mail/fields/received_field_spec.rb:66 | two timestamps with the same formatted date are equal |
| `DateFormat.FormatShape` | spec/mail/fields/received_field_spec.rb:66 | a formatted date is 31 characters and opens with the weekday name of its date and ", " |
| `DateFormat.FormatMidnight` | spec/mail/fields/received_field_spec.rb:66 | a midnight +0000 date is written with its weekday, date and "00:00:00 +0000" |
| `Calendar.DaysInMonth` | spec/mail/fields/received_field_spec.rb:49-57 | month lengths are 28 to 31 days and February has 29 exactly in leap years |
| `Calendar.DayNumberNextDay` | spec/mail/fields/received_field_spec.rb:66 | the day number counts days: the day after a valid date is a valid date with the next number |
| `Calendar.WeekdayNextDay` | spec/mail/fields/received_field_spec.rb:66 | consecutive days have consecutive weekdays |
| `Calendar.Epoch` | spec/mail/fields/received_field_spec.rb:66 | 1970-01-01 is day 0 and a Thursday |
| `Fallback.FirstDateSpec` | spec/mail/fields/received_field_spec.rb:59-77 | FirstDate is the date at the least index where one starts, and none when no date starts anywhere |
| `Fallback.ScanFindsFirst` | spec/mail/fields/received_field_spec.rb:59-77 | the one-pass scanner finds exactly the first date of the text |
| `Fallback.FallbackDate` | spec/mail/fields/received_field_spec.rb:64-66 | the fallback date is at midnight +0000 on the first date of the text, and is absent when there is none or it is not a calendar date |
| `Scenarios.PostfixLine` | spec/mail/fields/received_field_spec.rb:15-36 | the Postfix line: name, value, info before `;`, date 2005-05-10 17:26:50 +0000, decoded without "(GMT)", encoded framed |
| `Scenarios.EstLine` | spec/mail/fields/received_field_spec.rb:28-31 | the same line at -0500 keeps offset -300 minutes and encodes "-0500" |
| `Scenarios.PostfixDateAlone` | spec/mail/fields/received_field_spec.rb:20 | "10 May 2005 17:26:50 +0000 (GMT)" parses to the same timestamp |
| `Scenarios.QmailLine` | spec/mail/fields/received_field_spec.rb:38-41 | a lone comment is the whole info, and "-0000" is offset 0 |
| `Scenarios.BlankLine` | spec/mail/fields/received_field_spec.rb:43-47 | the empty value decodes to "" and encodes to "Received: \r\n" |
| `Scenarios.InvalidLine` | spec/mail/fields/received_field_spec.rb:49-57 | hour 25: info still cut, no date, no formatted date |
| `Scenarios.DateOnlyLine` | spec/mail/fields/received_field_spec.rb:59-64 | "10 May 2005 17:26", with its time-of-day colon and no `;`, keeps the whole value as info and has no date |
| `Scenarios.ColonLine` | spec/mail/fields/received_field_spec.rb:59-67 | the colon run: empty info, date 2019-03-13 at midnight, "Wed, 13 Mar 2019 00:00:00 +0000" |
| `Scenarios.ApostropheLine` | spec/mail/fields/received_field_spec.rb:69-77 | the stray apostrophe: empty info, date 2013-08-06 at midnight, "Tue, 06 Aug 2013 00:00:00 +0000" |

## Left out

- Ruby's `DateTime` class and `DateTime.parse` are library code; a timestamp is the integer record `Calendar.DateTime` (year, month, day, hour, minute, second, offset in minutes), and `date_time.class == DateTime` is read as "a date is present".
- The exact boundary of grammar classification is not visible in any code shown: `Splitter.Classifies` fails only on a top-level colon in the routing information of a value that has a top-level `;`, and on a top-level apostrophe ending the value. A single such colon is enough (`by mx:25; …` falls back), and a time of day written in front of the last `;` falls back too: the exemption of a time context is modelled only in that a value with no `;` (such as `10 May 2005 17:26`) has no routing information to fail, and the clause after the `;` is never checked for colons. The colon run is the failure of the line at spec/mail/fields/received_field_spec.rb:60. For the line at :70, whose test is titled after its angle brackets, the expected values do not say which token fails; the trailing apostrophe was chosen as the trigger, and angle brackets such as `<multiple recipients>` are not a trigger in this model. Other malformed text, such as an unterminated quoted string, classifies in this model.
- The fallback recognises only `DD Mon YYYY` with a one- or two-digit day, an English three-letter month name written as in `DateGrammar.MonthNames`, and a four-digit year; the heuristics of `DateTime.parse` beyond that are not modelled. A weekday in front is accepted by being skipped, not checked.
- The strict parser does not check a weekday name against the date, accepts numeric zones only (a zone name such as `GMT` in place of `+0000` gives no date), and matches day and month names case-sensitively.
- Offsets are bounded by the `±HHMM` form (at most 99 hours 59 minutes); years are four digits, 0000 to 9999.
- The field stores no flag saying whether its date came from the strict parser or the fallback; `Splitter.Classifies` of the trimmed value decides it and is available to every lemma.
- Header line folding, the surrounding header and message objects, other field types, charsets and transfer encodings are outside this field's value logic.
- The test harness itself (`describe`, `expect`, `raise_error`) is not modelled; "does not raise" is implicit in every function being total.
- Received.EncodedFraming: the final CRLF is proved to be the only carriage return only for raw values that hold none. A CR or LF already in the raw value (a folded header, say) is copied into `Decoded` and `Encoded` unchanged, so `Encoded` then holds more than one line break; unfolding is left to the header collaborator.
- Received.Decoded: whitespace at both ends of the value is trimmed even when the value ends in no comment, so `" a"` decodes to `"a"` and a blank value to `""`. No behaviour shown pins the outer whitespace of a value without a trailing comment.
