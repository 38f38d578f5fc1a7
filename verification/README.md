# Ftp2Serial frame formatter

Ftp2Serial fetches a text record from an FTP server and forwards it to a
device over a serial port. Before sending, it turns the record into a
device frame. This project models that transformation in Dafny and proves
properties of it.

The record is a `|`-separated list of fields. `Form.__format_string` splits
it on `|`, strips every field, and writes `ROG|`. It then writes each
stripped field followed by `|`, adds the date token and a `|` right after
the field at index 1, and closes the frame with `%%%`.
`Form.__format_date_english` builds the date token: the day of the month
with no leading zero, the three-letter English month abbreviation, and the
last two characters of the year, all upper-cased. For 5 July 2024 that is
`5JUL24`.

The modules follow the parts of the program:

- `Strings`: Python string operations over `seq<char>`. The formatter
  calls `strip()`, `split('|')` and `upper()`. `'|'.join` and `count('|')`
  are modelled only to state properties of `split`. `Trim` is Python's own
  `strip()`: it removes exactly the characters `str.isspace()` accepts.
- `Decimal`: `str(n)` for non-negative integers, its inverse `Value`, and
  the `s[-2:]` slice.
- `Calendar`: the date, the month table, the date token, and a reader that
  parses a token back into day, month and two-digit year.
- `Frame`: the frame. It has two descriptions:
  - `Assemble` and `FormatFrame`, a reference definition built from
    split, strip, positional insertion and enclosing;
  - `FormatFields` and `FormatString`, the loop exactly as the program
    writes it, proved equal to the reference.

  The lemmas state layout, `|` count, padding invariance, and the
  worked examples.

The current date is a parameter: `date.today()` is not modelled.

Facts about the code that the model makes explicit:

- The token follows the field at index 1, which is the second field.
- A record always has at least one field. Splitting the empty string gives
  one empty field, so an empty record gives the frame `ROG||%%%`
  (`Frame.EmptyInputFrame`).
- With fewer than two fields, the frame has no token slot. The token's text
  may still appear inside a field, so this is stated slot by slot
  (`Frame.AssembleLayout`).
- The token is 5 to 7 characters long. From year 10 on it is 6 characters
  for days 1 to 9 and 7 for days 10 to 31; for years 1 to 9 it is one
  character shorter (`Calendar.DateTokenLength`).

## Model

| member | source | states |
|---|---|---|
| Strings.TrimStripped | ftp2Serial.py:87 | what `strip()` returns neither starts nor ends with whitespace |
| Strings.TrimDecompose | ftp2Serial.py:87 | the input of `strip()` is whitespace, then the result, then whitespace: the result is a contiguous slice and only whitespace was cut |
| Strings.TrimUnique | ftp2Serial.py:87 | any split of a string into whitespace, a stripped middle and whitespace has `strip()` of the string as its middle (independent characterisation of `strip()`) |
| Strings.TrimIgnoresPadding | ftp2Serial.py:87 | adding whitespace around a field never changes what `strip()` returns for it |
| Strings.TrimIdempotent | ftp2Serial.py:50-55 | stripping a second time changes nothing |
| Strings.TrimKeepsAbsent | ftp2Serial.py:87 | a character absent from a field, such as `|`, is absent from the stripped field |
| Strings.Split | ftp2Serial.py:83 | `split('|')` gives `count('|') + 1` fields, none containing `|`, whose join is the input |
| Strings.SplitJoin | ftp2Serial.py:83 | splitting the join of `|`-free fields gives the fields back, empty ones included |
| Strings.Upper | ftp2Serial.py:102 | `upper()` keeps the length, leaves no lower-case ASCII letter, turns each lower-case letter into the upper-case letter at the same place in the alphabet, and keeps every other character where it was |
| Strings.UpperIdempotent | ftp2Serial.py:102 | upper-casing twice gives the same string as upper-casing once |
| Strings.UpperIdentity | ftp2Serial.py:102 | `upper()` leaves a string without lower-case letters unchanged |
| Decimal.NatToString | ftp2Serial.py:100-101 | `str(n)` is a non-empty string of decimal digits |
| Decimal.NatToStringLength | ftp2Serial.py:100-101 | `str(n)` has one digit exactly when `n < 10`, and two digits for `10 <= n < 100` |
| Decimal.NatToStringNoLeadingZero | ftp2Serial.py:100 | `str(n)` starts with `0` only for `n == 0`, so the day has no leading zero |
| Decimal.ValueOfNatToString | ftp2Serial.py:100-101 | reading `str(n)` back as a decimal number gives `n` |
| Decimal.LastTwo | ftp2Serial.py:101 | `s[-2:]` has two characters, or all of `s` when shorter, and is a suffix of `s` |
| Decimal.LastTwoDigits | ftp2Serial.py:101 | `str(year)[-2:]` is all digits, denotes `year % 100`, and has exactly two digits from year 10 on |
| Calendar.MonthAbbrev | ftp2Serial.py:94-99 | the month table is total on 1..12, and each entry is three upper-case letters |
| Calendar.MonthNumber | ftp2Serial.py:94-99 | the inverse of the month table, used by the reference reader below: it finds the month whose abbreviation is given, or reports that none has it |
| Calendar.MonthTableInjective | ftp2Serial.py:94-99 | no two months share an abbreviation |
| Calendar.DateTextLength | ftp2Serial.py:100-102 | the f-string has 5 to 7 characters: one or two day digits, three letters, and one year digit for years 1 to 9 or two from year 10 on |
| Calendar.DateTextAlphabet | ftp2Serial.py:99-102 | the f-string holds only digits and upper-case letters |
| Calendar.DateTokenParts | ftp2Serial.py:102 | the final `upper()` is the identity: the token is day text, month abbreviation and year tail, in that order |
| Calendar.DateTokenLength | ftp2Serial.py:93-102 | the token has 5 to 7 characters, exactly one or two day digits plus three letters plus one year digit for years 1 to 9 or two from year 10 on |
| Calendar.DateTokenNoDelimiter | ftp2Serial.py:93-102 | the token contains no `|` |
| Calendar.DateTokenRoundTrip | ftp2Serial.py:93-102 | a reader that cuts the token into leading digits, three letters and trailing digits recovers the day, the month and `year % 100` |
| Calendar.DateTokenExample | ftp2Serial.py:93-102 | 5 July 2024 gives `5JUL24` |
| Frame.TrimAll | ftp2Serial.py:86-87 | every field is stripped on its own, with count and order kept; no stripped field starts or ends with whitespace, and fields without `|` stay without it |
| Frame.Enclose | ftp2Serial.py:85-90 | with at least one slot, the enclosed text starts with `ROG|`, ends with `%%%`, and has a `|` right before `%%%` |
| Frame.Assemble | ftp2Serial.py:85-91 | for every record, the empty one included, the frame starts with `ROG|`, ends with `%%%`, and has a `|` right before `%%%` that closes the last slot |
| Frame.FormatFrame | ftp2Serial.py:84-91 | the same prefix and suffix for the frame on a given date |
| Frame.FormatFields | ftp2Serial.py:82-91 | the loop that appends stripped fields and the token after index 1 builds exactly the reference frame |
| Frame.FormatString | ftp2Serial.py:82-91 | `__format_string` with the token computed once for the date gives the reference frame, so the output depends only on the text and the date |
| Frame.SlotsLayout | ftp2Serial.py:85-90 | enclosing the fields with the token inserted puts `ROG` first, `%%%` last, fields 0 and 1 at slots 1 and 2, the token at slot 3, and field `i >= 2` at slot `i + 2` |
| Frame.AssembleLayout | ftp2Serial.py:83-91 | splitting the frame on `|` gives those slots: `count('|') + 1` stripped fields in order, and one token slot exactly when there are at least two fields |
| Frame.FrameLayout | ftp2Serial.py:83-91 | the same layout for the frame on a date, with `DateToken(d)` in the token slot |
| Frame.AssembleDelimiterCount | ftp2Serial.py:83-91 | for a `|`-free token and `n` fields, the frame has `1 + n + (1 if n >= 2 else 0)` characters `|` |
| Frame.FrameDelimiterCount | ftp2Serial.py:83-91 | the same `|` count for the frame on a date |
| Frame.EmptyInputFrame | ftp2Serial.py:83-90 | the empty record is one empty field and gives `ROG||%%%` |
| Frame.WithDateInjective | ftp2Serial.py:88-89 | inserting the token after index 1 loses no field: equal results mean equal field lists |
| Frame.AssembleDeterminedByTrimmedFields | ftp2Serial.py:83-91 | for a fixed token, two records give the same frame if and only if their split fields strip to the same list |
| Frame.PaddedFields | ftp2Serial.py:87 | fields padded with whitespace strip to the unpadded fields and stay `|`-free |
| Frame.PaddingInvariance | ftp2Serial.py:83-91 | whitespace around any field of a record leaves the frame unchanged, whatever the token |
| Frame.StrippedField | ftp2Serial.py:87 | a field with no whitespace at either end is its own strip |
| Frame.AssembleStrippedFields | ftp2Serial.py:83-91 | a record of already stripped `|`-free fields is framed field for field |
| Frame.OneFieldFrame | ftp2Serial.py:85-90 | one stripped field `a` gives `ROG|a|%%%`, with no token |
| Frame.ThreeFieldFrame | ftp2Serial.py:85-90 | three stripped fields `a`, `b`, `c` give `ROG|a|b|<token>|c|%%%` |
| Frame.WorkedExample | ftp2Serial.py:82-102 | the record `ID001|NAME|EXTRA` on 5 July 2024 gives `ROG|ID001|NAME|5JUL24|EXTRA|%%%` |
| Frame.ReadDataFrame | ftp2Serial.py:50-55 | the frame shown after a transfer is the frame of the once-stripped fetched text (the second strip changes nothing) |
| Frame.BlankFileFrame | ftp2Serial.py:50-55 | a blank or whitespace-only remote file gives `ROG||%%%` |

## Left out

- The Qt dialog, widget wiring, `closeEvent` and the `QSettings` save and restore (ftp2Serial.py:18-31, 104-146) are left out: they are UI and persistence code with no logic.
- The FTP transfer in `readData` (ftp2Serial.py:34-54) is network I/O and is left out. The FTP error path is left out with it. The fetched text is a parameter of `Frame.ReadDataFrame`. UTF-8 decoding is not modelled: the text arrives as characters.
- Serial sending in `sendData` (ftp2Serial.py:57-80) is left out. This includes its empty-text warning, the open/send/close calls and the error dialogs. `serialCommunication.py` is not part of this model.
- `date.today()` (ftp2Serial.py:84) is replaced by a date parameter. Logging is dropped.
- `datetime.date` is represented by `Calendar.Date` with `Calendar.ValidDate`. Its constructor and its own range checks are not modelled.
- Strings.Upper: maps ASCII letters only, not the full Unicode case mapping of `str.upper()`. This is enough here because the token is built only from ASCII digits and upper-case letters.
- Decimal.Value: it is total and gives a meaningless number for characters other than digits. Every statement about it requires `AllDigits` first.
- Frame.AssembleLayout: the rule "fewer than two fields means no token anywhere" is stated per slot. The lemma says there is no token slot. It does not say the token's text is absent, because a field may contain that text.
- Calendar.ParseDateToken: a reference reader, together with Calendar.MonthNumber and Calendar.MonthFrom, used only to state that the token loses nothing but the century. The program itself never parses tokens and never looks the month table up backwards.
