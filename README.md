# ScreenTime status-bar app: the poll-and-format core in Dafny

The app is a macOS menu-bar item. It shows how long applications have been in
use today. On a repeating timer, and whenever the user picks "Force Refresh",
it runs one SQL query against the system's Knowledge database. The query
returns the day's total as SQLite `time()` text (`"HH:MM:SS"`). `formatTime`
turns that text into `"{m}m"` or `"{h}h {m}m"`, and the result becomes the
status item's title. A failed query leaves the title as it was.

The model has five modules:

- `Options` (`options.dfy`): `Option<T>` with `GetOr`, Swift's `??`.
- `Numerals` (`numerals.dfy`): Swift's `Int(text)` (`ParseInt`) and `"\(n)"`
  (`IntToString`), with `Int`'s 64-bit range. A numeral that overflows does
  not parse.
- `Fields` (`fields.dfy`): Swift's `split(separator:)` with its defaults
  (`Split`). Empty pieces are dropped and there is no split limit. `Join`
  writes fields out with one separator between neighbours, and `Split` undoes
  it on lists of fields. `Split` itself is not injective (`"a:b"`, `"a::b"`
  and `":a:b:"` split alike), so `Join` does not undo `Split`.
- `TimeFormat` (`time_format.dfy`): `FormatTime`, i.e. `formatTime(s:)`, plus
  its rendering branch `Display`. `ReadDisplay` is an independent reader that
  recovers hours and minutes from a rendering. `HMS` describes what SQLite's
  `time(n, 'unixepoch')` produces for `0 <= n < 86400`. `HMS` is an
  assumption about the database engine, not code of the app.
- `ScreenTimeApp` (`screen_time_app.dfy`): the database path built from
  `USER` (`DbPath`), the query outcome `Ok(text) | Err`, and the one-poll
  title rule (`NextTitle`). It also has the class `StatusBarApp`, whose
  fields `dbPath` and `title` the constructor and the poll update in place.

What the code does at the edges:

- On a query error the code logs the error and keeps the old title.
- `formatTime` formats the `"HH:MM:SS"` text the query returns.
- A missing `USER` does not stop the process. Initialisation returns early
  with an empty path and no menus.
- A NULL query result (no usage rows today) makes the forced cast `as! String`
  crash (see Left out).

## Model

| member | source | states |
|---|---|---|
| `Numerals.NatToString` | Sources/ScreenTimeCore/ScreenTimeApp.swift:130-133 | interpolating a non-negative `Int` gives a non-empty numeral of digits with no leading zero, and "0" only for zero |
| `Numerals.IntToString` | Sources/ScreenTimeCore/ScreenTimeApp.swift:130-133 | interpolating an `Int` gives digits, with a leading `-` exactly when the value is negative |
| `Options.Option.GetOr` | Sources/ScreenTimeCore/ScreenTimeApp.swift:125-126 | `x ?? d` is the wrapped value when there is one and `d` otherwise |
| `Numerals.ParseInt` | Sources/ScreenTimeCore/ScreenTimeApp.swift:125-126 | `Int(text)` gives only 64-bit values and rejects the empty text and a bare sign |
| `Numerals.DigitsValueOfNatToString` | Sources/ScreenTimeCore/ScreenTimeApp.swift:130-133 | the digits written for `n` have the value `n` |
| `Numerals.DigitsValueLeadingZeros` | Sources/ScreenTimeCore/ScreenTimeApp.swift:124-126 | any number of leading zeros leaves the value of a digit string unchanged |
| `Numerals.ParseIntNumeral` | Sources/ScreenTimeCore/ScreenTimeApp.swift:124-126 | an optional sign, any zeros and canonical digits parse to the signed value, or to nothing when it overflows 64 bits |
| `Numerals.ParseIntOfIntToString` | Sources/ScreenTimeCore/ScreenTimeApp.swift:125-133 | parsing what interpolation writes gives back the same `Int` |
| `Numerals.ParseIntRejectsStrayChar` | Sources/ScreenTimeCore/ScreenTimeApp.swift:125-126 | a non-digit anywhere, other than one leading sign, makes `Int(text)` fail |
| `Numerals.IntToStringInjective` | Sources/ScreenTimeCore/ScreenTimeApp.swift:129-133 | two distinct `Int`s never render alike |
| `Fields.FieldLength` | Sources/ScreenTimeCore/ScreenTimeApp.swift:122 | the longest prefix without a separator ends at the first separator or at the end of the text |
| `Fields.Split` | Sources/ScreenTimeCore/ScreenTimeApp.swift:122 | every piece of `split(separator:)` is non-empty and holds no separator; `SplitCons`, `SplitSkip`, `SplitAppend` and `SplitJoin` fix which pieces they are |
| `Fields.FieldLengthIs` | Sources/ScreenTimeCore/ScreenTimeApp.swift:122 | `FieldLength` is fixed by its contract: the index of the first separator, or the length of the text when there is none |
| `Fields.SplitCons` | Sources/ScreenTimeCore/ScreenTimeApp.swift:122 | a field followed by a separator or by nothing is the first piece |
| `Fields.SplitField` | Sources/ScreenTimeCore/ScreenTimeApp.swift:122 | non-empty text without separators is one piece |
| `Fields.SplitSkip` | Sources/ScreenTimeCore/ScreenTimeApp.swift:122 | a leading separator yields no empty piece |
| `Fields.SplitAppend` | Sources/ScreenTimeCore/ScreenTimeApp.swift:122 | splitting `x + ":" + y` gives the pieces of `x` followed by the pieces of `y`, so doubled separators yield no empty piece |
| `Fields.SplitJoin` | Sources/ScreenTimeCore/ScreenTimeApp.swift:122 | splitting fields joined with the separator gives back exactly those fields |
| `TimeFormat.PieceValue` | Sources/ScreenTimeCore/ScreenTimeApp.swift:125-126 | `Int(t[i]) ?? 0` is always a 64-bit value |
| `TimeFormat.Display` | Sources/ScreenTimeCore/ScreenTimeApp.swift:128-134 | both renderings end in `m`, and the `h` mark appears exactly when the hour is non-zero; `DisplayRoundTrip` reads them back |
| `TimeFormat.FormatTime` | Sources/ScreenTimeCore/ScreenTimeApp.swift:120-135 | the title ends in `m` and shows an `h` exactly when the first piece is a non-zero number; `FormatTimeReadsBack`, `HoursShownIffNonZero`, `UnparsablePieceIsZero` and `LaterPiecesIgnored` state the rest |
| `TimeFormat.NoHourMark` | Sources/ScreenTimeCore/ScreenTimeApp.swift:129-130 | no interpolated integer contains the letter `h` |
| `TimeFormat.DisplayRoundTrip` | Sources/ScreenTimeCore/ScreenTimeApp.swift:128-134 | both renderings can be read back to the hours and minutes they were made from |
| `TimeFormat.FormatTimeReadsBack` | Sources/ScreenTimeCore/ScreenTimeApp.swift:120-135 | what `formatTime` returns reads back as exactly the integers parsed from the first two pieces |
| `TimeFormat.HoursShownIffNonZero` | Sources/ScreenTimeCore/ScreenTimeApp.swift:128-134 | a zero hour gives exactly `"{m}m"`; any other hour gives exactly `"{h}h {m}m"` |
| `TimeFormat.UnparsablePieceIsZero` | Sources/ScreenTimeCore/ScreenTimeApp.swift:125-126 | a non-numeric hour piece gives the minutes-only form; a non-numeric minute piece shows 0 minutes |
| `TimeFormat.LaterPiecesIgnored` | Sources/ScreenTimeCore/ScreenTimeApp.swift:121-126 | appending `":"` and anything else (the seconds, or more pieces) never changes the output |
| `TimeFormat.NumeralIsField` | Sources/ScreenTimeCore/ScreenTimeApp.swift:122 | a zero-padded numeral is one piece |
| `TimeFormat.LeadingPieces` | Sources/ScreenTimeCore/ScreenTimeApp.swift:122-126 | text that starts with two fields has them as its first two pieces, whatever follows a further separator |
| `TimeFormat.LeadingZerosDropped` | Sources/ScreenTimeCore/ScreenTimeApp.swift:124-126 | zero-padded hour and minute pieces, with or without further pieces, render without the padding |
| `TimeFormat.LeadingZeroExamples` | Sources/ScreenTimeCore/ScreenTimeApp.swift:121-130 | `"04:07:00"` renders as `"4h 7m"` and `"00:42:10"` as `"42m"` |
| `TimeFormat.SampleDisplays` | Sources/ScreenTimeCore/ScreenTimeApp.swift:128-134 | sample hour and minute pairs render as `"0m"`, `"1m"`, `"42m"`, `"1h 0m"`, `"1h 2m"`, `"1h 7m"` and `"4h 7m"` |
| `TimeFormat.HMS` | Sources/ScreenTimeCore/ScreenTimeApp.swift:17 | an assumption about SQLite, not app code: `time(n, 'unixepoch')` for `n` under one day is `"HH:MM:SS"`, eight characters with `:` at positions 2 and 5 and digits elsewhere |
| `TimeFormat.Pad2` | Sources/ScreenTimeCore/ScreenTimeApp.swift:17 | a zero-padded component of `time()` is two digits |
| `TimeFormat.ParsePad2` | Sources/ScreenTimeCore/ScreenTimeApp.swift:17 | a two-digit component of `time()` parses to its value |
| `TimeFormat.FormatOfHMS` | Sources/ScreenTimeCore/ScreenTimeApp.swift:17 | for a daily total under 24 hours (an assumption about `time()`), the title shows `secs / 3600` hours and `(secs % 3600) / 60` minutes, and the seconds are dropped |
| `TimeFormat.DurationExamples` | Sources/ScreenTimeCore/ScreenTimeApp.swift:17 | totals of 0, 59, 60, 3600, 3725 and 4025 seconds show as `"0m"`, `"0m"`, `"1m"`, `"1h 0m"`, `"1h 2m"` and `"1h 7m"` |
| `ScreenTimeApp.DbPath` | Sources/ScreenTimeCore/ScreenTimeApp.swift:29-34 | the path is empty exactly when `USER` is missing, and otherwise starts with the Users prefix and ends with the Knowledge database suffix |
| `ScreenTimeApp.DbPathRoundTrip` | Sources/ScreenTimeCore/ScreenTimeApp.swift:29-34 | the database path yields back the user name it was built from |
| `ScreenTimeApp.NextTitle` | Sources/ScreenTimeCore/ScreenTimeApp.swift:70-77 | an error keeps the title; a success sets a title that reads back as the parsed hours and minutes |
| `ScreenTimeApp.TitleAfter` | Sources/ScreenTimeCore/ScreenTimeApp.swift:70-77 | repeated `timerAction` calls in completion order; a run of errors leaves the title unchanged; `TitleAfterSnoc` and `TitleShowsLastSuccess` state the rest |
| `ScreenTimeApp.LastSuccess` | Sources/ScreenTimeCore/ScreenTimeApp.swift:70-77 | the text returned is that of a successful outcome followed only by errors, i.e. the last success; when there is none, every outcome was an error |
| `ScreenTimeApp.TitleAfterSnoc` | Sources/ScreenTimeCore/ScreenTimeApp.swift:70-77 | one more poll after a run changes the title by the one-poll rule |
| `ScreenTimeApp.TitleShowsLastSuccess` | Sources/ScreenTimeCore/ScreenTimeApp.swift:70-77 | after any run of polls the title is the formatting of the last successful result, or the starting title when every poll failed |
| `ScreenTimeApp.StatusBarApp.constructor` | Sources/ScreenTimeCore/ScreenTimeApp.swift:23-38 | with `USER` set, the path is filled in from the template and the title is `"..."`; without it, the path is empty and the title keeps its empty default |
| `ScreenTimeApp.StatusBarApp.Poll` | Sources/ScreenTimeCore/ScreenTimeApp.swift:70-78 | the title becomes `formatTime(result)` on success and is unchanged on error; nothing else changes |
| `ScreenTimeApp.StatusBarApp.Fire` | Sources/ScreenTimeCore/ScreenTimeApp.swift:94-99 | the timer and "Force Refresh" make the identical state change for the same outcome |
| `ScreenTimeApp.StatusBarApp.Start` | Sources/ScreenTimeCore/ScreenTimeApp.swift:52-62 | starting polls once immediately, making the same change as a tick |

## Left out

- AppKit: the status item, the menus, the activation policy and opening System
  Preferences (lines 7-8, 26, 36-46, 80-109). This is UI glue. The title is the
  only UI state modelled.
- The SQLite connection and query (lines 10-20, 111-118). This is a call into a
  foreign library over an external database. Its result is the abstract
  `Outcome`. The forced cast `as! String` crashes on a NULL result (no usage
  today). That crash is behaviour of the library boundary and is not modelled.
- SQLite's `time()`: only totals under 24 hours are described (`HMS`). Larger
  totals wrap around in `time()`; that is not modelled.
- Timer scheduling, the 150-second floating-point interval and run-loop
  delivery (lines 9, 52-62). Polls are modelled as a sequence of outcomes in
  completion order, and `Start` as its first poll. The main run loop
  serialises ticks and menu actions, so no interleaving is modelled.
- `print` logging, which has no state to model.
- When `USER` is missing, the title is taken to be the empty default of a
  fresh status item. AppKit's default is not part of this model.
- Swift compares `Character`s (grapheme clusters) when splitting. The model
  compares single `char`s, so a `:` followed by a combining mark is not
  modelled.
- The trap on a successful result with fewer than two pieces (`t[1]` at line
  126). `formatTime` and the poll require at least two pieces, which is what
  the source demands of its callers; the crash itself is not modelled.
