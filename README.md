# Combat-log upload parsing, modelled in Dafny

This project models the part of the tl-logs-site server that reads an uploaded
combat log. The `/upload` handler in `server.js` takes the text of the uploaded
file and splits it into lines on `\r?\n`. It takes the second line. It refuses
the log when that line is missing or empty. It splits the line on commas and
refuses the log when there are fewer than ten fields. Otherwise it keeps field 0
(the timestamp), field 8 (the player) and field 9 (the boss), each trimmed of
surrounding whitespace. Separately, the handler keeps the extension of the
uploaded file's name, or `.txt` when the name has none.

The model has three modules, one per concern:

- `Strings` (`strings.dfy`): `split` on one character, its inverse `Join`, and
  `trim`, with the whitespace set of ECMAScript's `String.prototype.trim`.
- `Lines` (`lines.dfy`): `split(/\r?\n/)`, written as the left-to-right scan the
  regular expression performs. An independent description (cut at every line
  feed, then drop one trailing carriage return from every piece but the last)
  is proved equal to it.
- `UploadLog` (`upload.dfy`): the two refusals (`MissingSecondLine`,
  `MalformedLogLine`, decided in that order), the extracted `LogRecord`, the
  extension default, and the properties of the parse.

Everything in the core is pure, so the model is made of datatypes, functions
and lemmas.

An empty second line is refused like a missing one: `!ligne2` (server.js:52)
is true both when `lignes[1]` is `undefined` and when it is `""`, so `"a\n"` and
`"a\n\nb"` are both `MissingSecondLine`.

## Model

| member | source | states |
|---|---|---|
| `Strings.Split` | server.js:58 | `line.split(',')` gives exactly one more field than the line has commas, and no field contains a comma |
| `Strings.JoinSplit` | server.js:58 | joining the fields of a line back with the separator reproduces the line |
| `Strings.SplitJoin` | server.js:58 | splitting a join of separator-free fields gives back exactly those fields |
| `Strings.SplitCons` | server.js:58 | a separator-free piece followed by the separator splits into that piece, then the pieces of the remainder |
| `Strings.Trim` | server.js:63-65 | `trim()` leaves no whitespace at either end and never lengthens the text |
| `Strings.TrimIsInfix` | server.js:63-65 | `trim()` removes only whitespace, and only at the ends: the result is a contiguous part of the text with whitespace alone around it |
| `Strings.TrimExact` | server.js:63-65 | trimming whitespace + core + whitespace gives exactly the core when the core has no whitespace at its ends |
| `Strings.TrimIdempotent` | server.js:63-65 | trimming twice is the same as trimming once |
| `Lines.SplitLines` | server.js:50 | `split(/\r?\n/)` gives one more line than the text has line feeds, and no line contains a line feed |
| `Lines.SplitLinesSingle` | server.js:50 | a text without line feeds is one line, kept whole, a lone carriage return included |
| `Lines.SplitLinesCons` | server.js:50 | a line feed ends the line before it, and a carriage return right before that line feed belongs to the break, not to the line |
| `Lines.SplitLinesCrLf` | server.js:50 | a line ended by `\r\n` keeps neither character of the break |
| `Lines.SplitLinesIsSplitThenStrip` | server.js:50 | the regular-expression split equals cutting at every line feed and then dropping one trailing carriage return from every piece but the last |
| `Lines.SecondLineLf` | server.js:50-51 | in `first\nline\nrest` the second line is `line` without a carriage return just before the line feed |
| `Lines.SecondLineCrLf` | server.js:50-51 | in `first\nline\r\nrest` the second line is exactly `line` |
| `Lines.SecondLineLast` | server.js:50-51 | in `first\nline` the second line is exactly `line` |
| `UploadLog.ParseFields` | server.js:58-65 | the line is refused as `MalformedLogLine` exactly when it has fewer than nine commas (fewer than ten fields); on success each kept field has no edge whitespace and no comma |
| `UploadLog.ParseSecondLine` | server.js:51-65 | an empty second line is `MissingSecondLine` exactly; `MalformedLogLine` exactly when the line is non-empty with fewer than ten fields; the empty check comes first |
| `UploadLog.ParseLog` | server.js:50-65 | `MissingSecondLine` exactly when the text has no line feed or its second line is empty; `MalformedLogLine` exactly when the second line is present, non-empty and short of ten fields; success yields clean fields |
| `UploadLog.UploadExtension` | server.js:41 | the extension is never empty: the one found in the name, or `.txt` when none was found |
| `UploadLog.NoLineFeedIsMissingSecondLine` | server.js:50-53 | a text with no line break is refused as `MissingSecondLine` |
| `UploadLog.LastLineDecides` | server.js:50-51 | the first line never affects the result; a second line that ends the text is parsed as it stands |
| `UploadLog.CrLfLineDecides` | server.js:50-51 | the result is that of the second line alone, whatever comes before and after it, when it ends with `\r\n` |
| `UploadLog.LfLineDecides` | server.js:50-51 | the result is that of the second line alone, without a carriage return just before its line feed, when it ends with `\n` |
| `UploadLog.EmptySecondLineIsMissing` | server.js:51-53 | `a\n`, `a\n\nb`, `a\n\r\nb` and `a\r\n\r\nb` are refused as `MissingSecondLine`, not `MalformedLogLine` |
| `UploadLog.FieldsDecide` | server.js:58-65 | a second line of ten or more comma-free fields yields the trimmed fields 0, 8 and 9 |
| `UploadLog.TooFewFieldsIsMalformed` | server.js:58-60 | a second line of one to nine fields is refused as `MalformedLogLine` (for two or more fields, also after the empty-line check) |
| `UploadLog.OtherFieldsIgnored` | server.js:58-65 | fields 1 to 7 and all fields after field 9 do not affect the result |
| `UploadLog.PaddedNamesAreTrimmed` | server.js:64-65 | whitespace around the player's or the boss's name does not reach the result |
| `UploadLog.ParsedFieldsAreTrimmed` | server.js:63-65 | every extracted field is already trimmed, so trimming it again changes nothing |
| `UploadLog.SampleLineFields` | server.js:56-65 | the sample line shown in the code gives timestamp `20251213-22:28:09:301`, player `Tipeuz` and boss `Calanthia` |
| `UploadLog.SampleLogParses` | server.js:50-65 | the same sample line, as the `\r\n`-ended second line of any log, gives the same record |

## Left out

- Express setup, static file serving, the routes and the port (server.js:1-8, 28-35): framework plumbing with no logic of its own.
- Multer storage and the `Date.now()` temporary file name (server.js:16-26): foreign library code that depends on the clock.
- The upload-folder creation, `fs.readFile` and its error branch, and `console.error` (server.js:10-14, 44-48): file I/O.
- The `req.file` presence check (server.js:36-38): it depends on multer's request handling. The model starts from the file's text.
- `path.extname` (server.js:41): a Node library call. The model takes its result as the input of `UploadExtension` and models only the `|| '.txt'` default.
- HTTP status codes and response texts (server.js:37, 47, 53, 60): the two refusals are the two cases of `ParseError`.
- Timestamp normalisation, removal of forbidden characters, composition of the new file name and the rename: that code follows line 66 and is not part of this model.
- Strings are sequences of Unicode characters. JavaScript strings are UTF-16 code units. This does not affect the model, because every separator and whitespace character involved is in the Basic Multilingual Plane.
- `Strings.IsSpace` lists the Unicode space separators of current Unicode versions. A JavaScript engine built on an older Unicode table may differ on U+180E.
