# The end-to-end harness of the local stack, verified

This project models the logic of the scripts that bring up, seed, probe and check the local stack, and proves
what those scripts rely on. `dafny verify dfyconfig.toml` checks all of it.

## What is modelled

- **Export oracle** (`scripts/verify-e2e.py`): normalisation of snapshot rows and the exact bytes of the CSV and
  JSON artifacts. `Timestamp`, `Json`, `JsonOrder`, `Csv`, `Formula`, `Uuid` and `Utf8` hold the printers together
  with the readers they are proved against, `TimestampForms`, `JsonSpelling` and `JsonNumbers` say which texts these
  print and read; `Export`, `Artifact` and `ArtifactProperties` put them together.
- **Log redactor and leak scanners** (`scripts/test-e2e.sh`, `scripts/verify-e2e.py`): `Text` is substring search
  and replacement, `Redactor` the fold over the environment file, `RedactorDecision` the decision of its
  completeness, `LeakScan` (with `Base64`, `AsciiJson` and `Lossy`) the three scanners and the producer of the
  Redis dumps.
- **RESP client** (`scripts/wait-for-health.py`): `Resp` has the request encoder and the chunk-wise reply reader.
- **Crash before acknowledgement** (`scripts/e2e-crash-worker.py`, `scripts/verify-e2e.py`): `CrashPoint` is the
  wrapped `_ack` and the harness's arming and observing on the keys of a Redis server, `CrashProtocol` the
  transition system of workers, consumer group and harness, `CrashRefinement` connects the two, and
  `CrashSafety`, `CrashProgress`, `CrashDrain`, `CrashReplay`, `CrashArming`, `CrashLimits` and `CrashLivelock` are the
  theorems over its runs.
- **Polling and seeding** (`scripts/verify-e2e.py`, `scripts/seed.py`): `Poll` and `Seed`.

Loops and updates are methods, proved against a specification function or an outright description of the result;
the properties are lemmas about the specification.

## Modelling decisions

- Text is a sequence of Unicode scalar values; bytes are numbers below 256. A failed assertion or a raised
  exception is a `None`, an `Err` or a verdict.
- A Python dictionary is a sequence of entries with distinct keys in insertion order, because the JSON artifact
  shows that order.
- Floats are number tokens that are passed through unchanged; the infinities and NaN are separate values, which
  `allow_nan=False` refuses.
- The Unicode tables behind `isspace` and `category` are a parameter. Of them only this is used: `=`, `+`, `-`,
  `@` and `'` are not skippable; `CellSpelling` also asks this of the digits, `a` to `f` and `{`.
- In the `Poll` model the clock does not go back and a sleep lasts at least as long as asked.
- A connection is a list of non-empty chunks of at most 4096 bytes, after which the peer closes or stays silent.
- Password hashes are an arbitrary function of the call, so that every call may salt differently.
- The consumers belong to other repositories. The crash protocol assumes of them that effects precede `_ack`
  (`scripts/e2e-crash-worker.py:2`), that each process incarnation has its own identity derived from the operator
  label (`README.md:49`), that an acknowledgement only works for the entry's owner (`README.md:91`), that applying
  the effect of the same logical event again changes nothing, and that `_ack` gets the delivery count that the
  worker saw when it took the entry.
- `GET`, the transaction, the kill, the acknowledgement and the two commands of an arming are separate steps, and
  every interleaving of them with deliveries, reclaims, replays, restarts and other deaths is a run. A run has one
  live worker if a worker starts only while none is live; it is orderly if, besides, an arming starts only while
  disarmed. The theorems that need one of these say so. Without them, `CrashAgreementIff` gives the exact condition
  for the agreement, `CrashCountsDeliveriesIff` the one for the attempts, `CrashAccounts` the one for crashes and
  armings, and `ArmedAndObservedIff` the one for being armed and observed at once; draining needs neither, and
  bounded work needs one live worker. `CrashLimits` and `CrashLivelock` have the runs that show what goes wrong.
  What can always happen next is in `CrashReplay`: replays, crashes, recoveries and deaths.

## Findings

- Redaction can fail for three reasons: a value can be part of a marker (`MarkerCanLeak`), a value with an angle
  bracket can straddle a marker's end (`AngleCanLeak`), and an empty value puts a marker at every position
  (`EmptyValueFloods`). It is complete when every value is non-empty and none can touch a marker. Whether it is
  complete is decided, for every environment file, by the logs up to a length computed from the values; if no value
  holds an angle bracket, the logs that hold one value each are enough.
- The JSON scan misses a forbidden value that is not part of its own escaped text, one with a quotation mark for
  example.
- The dump producer decodes keys with replacement, so keys can collide, two that are no UTF-8 for example; the bytes
  under the earlier one are then not scanned. Keys that decode without a replacement never lose their value.
- The inline branch of the reply reader looks for CRLF in the newest chunk only: a cut between CR and LF makes it
  wait for more although the reply is complete. The null bulk reply is never recognised as complete.
- The CSV artifact is ambiguous in one way only: a target or a status that is dangerous, and the same text behind a
  quote of its own, have the same cell.
- With two live workers the crash record can disagree with the consumer group, one arming can crash both, a crash
  inside an arming leaves the service armed and observed, and two workers can reclaim an entry from each other for
  ever.

## Model

| member | source | states |
|---|---|---|
| `Formula.ProtectCsv` | scripts/verify-e2e.py:125-134 | The scanning loop puts a quote in front if and only if the value starts with one of `= + - @`, a tab or a line break, or its first character that is not skippable is one of `= + - @`; otherwise the value stays as it is. |
| `Formula.ProtectIdempotent` | scripts/verify-e2e.py:125-134 | No protected cell is dangerous any more, protecting twice is protecting once, and at most the quote is added. |
| `Formula.ProtectCollisions` | scripts/verify-e2e.py:125-134 | Two values share a cell if and only if they are equal or one is the other behind the quote that protection gave it. |
| `Timestamp.NormalizeIff` | scripts/verify-e2e.py:111-122 | A timestamp is accepted if and only if it reads as a time with offset zero; its normal form is that time's own text with `Z`. The replacement of `+00:00` never hits anything but the offset. |
| `Timestamp.NormalizeKeepsTime` | scripts/verify-e2e.py:111-122 | The normal form denotes the same instant, microseconds included. |
| `Timestamp.NormalizeIdempotent` | scripts/verify-e2e.py:111-122 | Normalising a normal form changes nothing. |
| `Timestamp.NormalFormIff` | scripts/verify-e2e.py:111-122 | Two accepted spellings have the same normal form if and only if they denote the same time. |
| `Timestamp.ParsePrinted` | scripts/verify-e2e.py:114-120 | A time printed in ISO form, with whatever offset or none, is read back field by field. |
| `TimestampForms.ParseIff` | scripts/verify-e2e.py:114-116 | Which texts are read as which time, both ways: its date and time of day as printed, any fraction after a point or a comma whose first six digits, filled up with zeros, are its microseconds, and its offset, `-00:00` included. |
| `TimestampForms.InRangeIff` | scripts/verify-e2e.py:114-116 | Which fields make a time: the ranges of each, with the day bounded by the length of its month. |
| `TimestampForms.MonthLengths` | scripts/verify-e2e.py:114-116 | The months have their lengths, and February takes up the difference between the numbers of days before one year and the next. |
| `TimestampForms.NormalFormShape` | scripts/verify-e2e.py:120-122 | A normal form ends with `Z` and has no fraction, or one of exactly six digits for microseconds other than zero. |
| `Uuid.CanonicalIff` | scripts/verify-e2e.py:140-142 | `str(UUID(text)) == text` if and only if the text has hyphens in the four places and lower-case hexadecimal digits in the other 32. |
| `Uuid.ReadPrinted` | scripts/verify-e2e.py:142 | Reading a printed identifier gives its 16 bytes back. |
| `Export.NormalizeRow` | scripts/verify-e2e.py:137-158 | The dictionary updates accept a row if and only if its fields are exactly the export fields and each is acceptable, and they normalise every field in its place and change no other. |
| `Export.CheckIds` | scripts/verify-e2e.py:140-142 | The loop over the identifiers, which reads and prints each, accepts if and only if all four are canonical UUID texts. |
| `Export.CheckTexts` | scripts/verify-e2e.py:140-144 | The checks without rewriting pass if and only if the identifiers, the target and the status are acceptable. |
| `Export.CanonicalDetails` | scripts/verify-e2e.py:145-155 | Dumping the details with sorted keys and loading them again is exactly sorting the keys at every depth; null is kept, non-dictionaries and non-finite floats are refused. |
| `Export.RewriteFields` | scripts/verify-e2e.py:145-157 | The three updates in order succeed if and only if the details and both times are acceptable, and each works on the row's original value of its field. |
| `JsonOrder.LoadsOfSortedDumps` | scripts/verify-e2e.py:147-155 | Loading a sorted dump gives the value with its keys sorted at every depth. |
| `Artifact.ExpectedArtifact` | scripts/verify-e2e.py:161-191 | The loops produce exactly the specified bytes or error: a bad row goes before a bad format. |
| `Artifact.RenderCsv` | scripts/verify-e2e.py:174-190 | Writing the header and then row after row gives the table of all records. |
| `Artifact.RenderRecord` | scripts/verify-e2e.py:178-189 | Appending cell by cell gives the record in the order of the export fields, whatever the row's own key order is. |
| `Artifact.NormalizedHasFields` | scripts/verify-e2e.py:137-158 | A normalised row is a dictionary with the same keys, each holding the normalised value of its field. |
| `ArtifactProperties.CsvReadBack` | scripts/verify-e2e.py:161-191 | A reader for section 2 of RFC 4180 finds the header and one record of nine cells per row, each the protected text of the normalised field, for any mix of commas, quotes and line breaks. |
| `ArtifactProperties.JsonReadBack` | scripts/verify-e2e.py:162-172 | Loading the JSON artifact gives exactly the list of normalised rows, keys in the rows' own order, for any nesting and any escapes. |
| `ArtifactProperties.JsonIsOneLine` | scripts/verify-e2e.py:162-172 | The JSON artifact is one line: a dump without control characters and without white space outside strings, and one line feed at its end. |
| `ArtifactProperties.CellSpelling` | scripts/verify-e2e.py:179-189 | The cells as texts: identifiers and normal times as they are, details as their sorted compact dump, null as nothing, none of these behind a quote; targets and statuses protected. |
| `ArtifactProperties.CsvCellsAreSafe` | scripts/verify-e2e.py:177-190 | No cell that a CSV reader finds below the header can be taken for a formula. |
| `ArtifactProperties.NormalizeRowIdempotent` | scripts/verify-e2e.py:137-158 | A normalised row is accepted again and is already normal. |
| `ArtifactProperties.NormalizeFieldIff` | scripts/verify-e2e.py:146-157 | Normalisation identifies two field values if and only if they mean the same: details up to key order at every depth, times up to spelling, everything else literally. |
| `ArtifactProperties.NormalizedIff` | scripts/verify-e2e.py:137-158 | Two rows have the same normal form if and only if they have the same keys in the same order with the same meanings. |
| `ArtifactProperties.JsonBytesIff` | scripts/verify-e2e.py:162-172 | JSON artifacts agree byte for byte if and only if their rows mean the same with keys in the same order. |
| `ArtifactProperties.CsvBytesIff` | scripts/verify-e2e.py:174-191 | CSV artifacts agree byte for byte if and only if they have as many rows and each field of each row means the same, or is a target or a status and one text is the other behind the quote that protects it from being a formula. |
| `ArtifactProperties.CellIff` | scripts/verify-e2e.py:179-189 | Two cells of a field agree if and only if the values mean the same or differ by the protecting quote of a target or a status: identifiers, times and details are never ambiguous. |
| `ArtifactProperties.CsvIgnoresOrder` | scripts/verify-e2e.py:177-190 | CSV bytes depend neither on a row's key order nor on key order inside the details nor on the spelling of a time. |
| `ArtifactProperties.JsonKeepsRowOrder` | scripts/verify-e2e.py:162-172 | Row-level keys are not sorted: rows whose keys come in another order give other JSON bytes. |
| `Csv.ReadWrittenRows` | scripts/verify-e2e.py:174-190 | Everything the excel-dialect writer writes is read back, record by record and field by field. |
| `Csv.QuotesAreNeeded` | scripts/verify-e2e.py:175 | Quoting is minimal: a field is written without quotes if and only if a reader would get it back without them. |
| `JsonRoundTrip.LoadsOfDumps` | scripts/verify-e2e.py:147-172 | Loading a compact dump gives the value back, for every nesting, every string, integer and float token, with white space after it too. |
| `JsonSpelling.EscapingIsMinimal` | scripts/verify-e2e.py:164-172 | A character is escaped if and only if a reader would not take it for itself. |
| `JsonSpelling.EscapeIsShortest` | scripts/verify-e2e.py:147-172 | Each character gets the shortest of all texts that a reader takes for it, and of several that short the one with lower-case digits: no other. |
| `JsonSpelling.SpellsIff` | scripts/verify-e2e.py:146-155 | A reader takes a text for a character if and only if it is one of its spellings in section 7 of RFC 8259: itself, a short escape, a code unit with digits of either case, a pair of surrogates. |
| `JsonSpelling.CompactIsTight` | scripts/verify-e2e.py:164-170 | A compact dump has no white space outside its strings. |
| `JsonSpelling.RenderHasNoControl` | scripts/verify-e2e.py:164-172 | No dump, compact or not, holds a control character. |
| `JsonSpelling.RenderIsJoined` | scripts/verify-e2e.py:147-172 | A list is its items and a dictionary its entries, with `,` and `:` or with `, ` and `: ` between them, by the style. |
| `JsonNumbers.FloatTokenIff` | scripts/verify-e2e.py:164-170 | The float tokens are those of section 6 of RFC 8259: a sign perhaps, an integer part without leading zeros, a fraction or an exponent. |
| `JsonNumbers.TailIff` | scripts/verify-e2e.py:164-170 | A fraction is a point and digits, an exponent `e` or `E`, a sign perhaps and digits, and one of the two is there. |
| `JsonRoundTrip.RenderInjective` | scripts/verify-e2e.py:164-172 | Different values have different compact dumps. |
| `JsonRoundTrip.ToDictOfDistinct` | scripts/verify-e2e.py:147-155 | Building a dictionary from entries with distinct keys keeps all of them in order. |
| `JsonOrder.SortKeysSorts` | scripts/verify-e2e.py:148-154 | Key sorting gives strictly ascending keys at every depth and keeps well-formedness and finiteness. |
| `JsonOrder.LessIff` | scripts/verify-e2e.py:148-154 | The order of keys: the first code point at which two differ decides, the smaller one first, and a key goes before its own continuations. |
| `JsonOrder.AscendingIff` | scripts/verify-e2e.py:148-154 | Sorted keys are ascending in this sense, each before every later one. |
| `JsonOrder.ErrorCodeFirst` | scripts/verify-e2e.py:817 | In either order of entries, `error_code` is dumped before `outcome`. |
| `JsonOrder.SortKeysIff` | scripts/verify-e2e.py:148-154 | Two values sort to the same value if and only if they differ in key order only, at whatever depth. |
| `JsonOrder.SortKeysOfSorted` | scripts/verify-e2e.py:147-155 | A sorted value is left as it is. |
| `JsonOrder.SortedDumpsIff` | scripts/verify-e2e.py:182-188 | Sorted dumps agree byte for byte if and only if the values differ in key order only. |
| `Decimal.ToIntOfInt` | scripts/e2e-crash-worker.py:40 | Printing an integer in decimal and reading it gives it back, also negative ones. |
| `Decimal.ToIntIff` | scripts/wait-for-health.py:46 | The texts that are read as integers are digits with at most one sign before them. |
| `Utf8.DecodeEncode` | scripts/verify-e2e.py:172-191 | Strict UTF-8 decoding (section 3 of RFC 3629) inverts encoding. |
| `Utf8.EncodeIsShortest` | scripts/verify-e2e.py:172-191 | Each character gets the one shortest unit that spells its number, a single byte if and only if it is below 128. |
| `Utf8.DecodeIff` | scripts/verify-e2e.py:203-208 | The strict decoder accepts exactly the encodings: no overlong forms, no surrogates. |
| `Utf8.ScanIsExact` | scripts/verify-e2e.py:203-210 | For every text and sentinel, the encoded sentinel occurs in the encoded text if and only if the sentinel occurs in the text. |
| `Base64.DecodeEncode` | scripts/verify-e2e.py:217-219 | Strict decoding inverts encoding (section 4 of RFC 4648) on every byte string. |
| `Base64.Examples` | scripts/verify-e2e.py:1112 | The examples of section 10 of RFC 4648 are encoded as they stand there. |
| `LeakScan.AssertNoForbidden` | scripts/verify-e2e.py:194-197 | The loop passes if and only if no forbidden value occurs in the rendered text, and otherwise reports one that does. |
| `LeakScan.RenderedIsJoined` | scripts/verify-e2e.py:195 | The scanned text is the items with `, ` between them, and the entries in ascending order of keys with `, ` between them and `: ` inside, whatever order the dictionary has. |
| `LeakScan.EscapeConcat` | scripts/verify-e2e.py:195 | Escaping works character by character: the escaped text of a concatenation is the concatenation of the escaped texts. |
| `LeakScan.JsonScanComplete` | scripts/verify-e2e.py:194-197 | A forbidden value without escaped characters that any string or key at any depth contains is found in the rendered text. |
| `LeakScan.JsonScanCompleteIff` | scripts/verify-e2e.py:194-197 | The scan finds a forbidden value wherever it stands if and only if that value is part of its own escaped text. |
| `LeakScan.SurvivesEscapingIff` | scripts/verify-e2e.py:194-197 | A text survives escaping inside every string if and only if it survives its own escaping. |
| `LeakScan.QuoteInsideIsMissed` | scripts/verify-e2e.py:194-197 | A forbidden value with a quotation mark inside is missed. |
| `LeakScan.AssertHttpResponsesSafe` | scripts/verify-e2e.py:200-210 | The nested loops pass if and only if no response's body or header text holds an encoded forbidden value. |
| `LeakScan.HttpScanExact` | scripts/verify-e2e.py:203-210 | On a UTF-8 body the two byte scans decide exactly whether the texts contain the forbidden value. |
| `LeakScan.HttpScanLossy` | scripts/verify-e2e.py:203-210 | On any body, UTF-8 or not, the two byte scans decide exactly whether the body decoded with replacement or the headers contain a forbidden value, if that value holds no replacement character. |
| `LeakScan.HeaderIsScanned` | scripts/verify-e2e.py:204-206 | A forbidden value in any header's name or value is in the scanned text. |
| `LeakScan.HeaderTextIsJoined` | scripts/verify-e2e.py:204-206 | The scanned headers are `name: value` lines with line feeds between them. |
| `LeakScan.AssertRedisDumpsSafe` | scripts/verify-e2e.py:213-225 | The loops pass if and only if the keys render without forbidden values and every dump decodes strictly to bytes without them. |
| `LeakScan.DumpScanExact` | scripts/verify-e2e.py:217-225 | The scan of a dump sees exactly the dumped bytes. |
| `LeakScan.DumpScanLossy` | scripts/verify-e2e.py:217-225 | The scan of a dump sees exactly the forbidden texts that its bytes show when decoded with replacement. |
| `LeakScan.DumpAllHas` | scripts/verify-e2e.py:1112 | The producer's dictionary holds, in the order of its keys, exactly the dumps of the last entry of each decoded key. |
| `LeakScan.PrintedIsLoaded` | scripts/verify-e2e.py:1112-1116 | Loading what the producer prints, with sorted keys and ASCII escapes, gives that dictionary back. |
| `AsciiJson.LoadsOfPrinted` | scripts/verify-e2e.py:1112-1116 | Printing a dictionary of texts with ASCII escapes and surrogate pairs and loading it is the identity, whatever characters the texts hold. |
| `AsciiJson.EscapedIsAscii` | scripts/verify-e2e.py:1112 | Escaped texts hold printable ASCII only. |
| `JsonSpelling.AsciiEscapeIsShortest` | scripts/verify-e2e.py:1112 | With ASCII escapes each character gets the shortest printable ASCII text that a reader takes for it, and of several that short the one with lower-case digits. |
| `LeakScan.RedisScanIff` | scripts/verify-e2e.py:213-225 | Producer and scanner together pass if and only if no forbidden value occurs in the rendered keys or in the bytes of an entry whose key no later key decodes alike. |
| `LeakScan.RedisKeysScanned` | scripts/verify-e2e.py:216 | A forbidden value in any key is found. |
| `LeakScan.OverwrittenIsMissed` | scripts/verify-e2e.py:1112 | Of two distinct keys that end in the bytes 0xFF and 0xFE, both decoded to the same replacement, the bytes of the first are not scanned. |
| `LeakScan.ScannedWhateverElseIff` | scripts/verify-e2e.py:1112 | The value under a key is scanned, whatever other keys there are, if and only if the key decodes without a replacement. |
| `LeakScan.StrictKeysLoseNothing` | scripts/verify-e2e.py:1112 | Distinct keys that are UTF-8 lose no value. |
| `Lossy.CollidesIff` | scripts/verify-e2e.py:1112 | Decoding with replacement makes some other byte string the same text if and only if that text holds a replacement character. |
| `Lossy.ReplacedIsStart` | scripts/verify-e2e.py:1112 | What one replacement stands for is one byte or the proper start of some character. |
| `Lossy.ReplacedIsMaximal` | scripts/verify-e2e.py:1112 | With the next byte it would be the start of no character. |
| `Lossy.StrictNeverCollide` | scripts/verify-e2e.py:1112 | Two byte strings that both decode strictly never become the same text. |
| `Lossy.UnmarkedIsStrict` | scripts/verify-e2e.py:1112 | Without a replacement in it, the lossy decoding is the strict one. |
| `Lossy.ScanIsExactIff` | scripts/verify-e2e.py:203-225 | Scanning arbitrary bytes for an encoded text is exactly scanning their lossy decoding for the text, if and only if the text holds no replacement character. |
| `Lossy.ScanInventsNone` | scripts/verify-e2e.py:203-225 | What is found in the bytes is found in the text, for any bytes and any text: a match starts where a character starts. |
| `Lossy.ScanMissesNone` | scripts/verify-e2e.py:203-225 | A text without a replacement character that the lossy decoding shows is found in the bytes. |
| `Redactor.RedactLog` | scripts/test-e2e.sh:21-28 | The loop over the environment lines computes the fold of replacements over exactly the secrets that the lines define, in order. |
| `Redactor.SecretLine` | scripts/test-e2e.sh:23-26 | A line `name=value` yields that name and the whole value, if and only if it is no comment and the name contains `PASSWORD`, `CREDENTIAL`, `SECRET` or `SIGNING_KEY`. |
| `Redactor.SecretOfLineIff` | scripts/test-e2e.sh:22-26 | No line of another form yields a secret, and no line another secret. |
| `Redactor.SecretsOfConcat` | scripts/test-e2e.sh:21-28 | The secrets of a file are those of its lines in order. |
| `Redactor.RedactAtFirst` | scripts/test-e2e.sh:27 | Where a secret occurs first, `<redacted:`, its name and `>` take its place; the text before stays and the text after is treated the same way. |
| `Redactor.RedactionComplete` | scripts/test-e2e.sh:21-28 | When no value is empty or can lie in, hold or straddle an end of its own or a later marker, no log keeps any secret: later passes never bring an earlier one back. |
| `Redactor.TouchesIff` | scripts/test-e2e.sh:27 | For values without angle brackets that condition says no more than that the value is not part of the marker. |
| `Redactor.CleansEveryLogIff` | scripts/test-e2e.sh:21-28 | For lists whose values hold no angle bracket: every log is cleaned if and only if the logs that hold one secret value each are. |
| `RedactorDecision.ShortLogsDecide` | scripts/test-e2e.sh:21-28 | For every list of secrets, whatever characters the values hold: every log is cleaned if and only if every log up to a length computed from the values is. |
| `RedactorDecision.ShortLeak` | scripts/test-e2e.sh:21-28 | A log that keeps a secret can be cut down to one no longer than the product of all value lengths and that secret's own, which keeps it too. |
| `RedactorDecision.LeaksStep` | scripts/test-e2e.sh:22-27 | What the passes hold back after a character, and what of a secret the output's end spells, is all that the rest of the log needs: the redactor is a machine with finite memory. |
| `Redactor.RedactionKeepsCleanLogs` | scripts/test-e2e.sh:27 | A log without secrets is kept as it is. |
| `Redactor.MarkerCanLeak` | scripts/test-e2e.sh:27 | A secret whose value is part of its own marker survives redaction. |
| `Redactor.AngleCanLeak` | scripts/test-e2e.sh:27 | A secret whose value holds an angle bracket can come back across the start of its marker although the log that holds it alone is cleaned. |
| `Redactor.EmptyValueFloods` | scripts/test-e2e.sh:27 | An empty value puts a marker at every position of the log, the end included. |
| `Redactor.EmptyValueFails` | scripts/test-e2e.sh:25-27 | With an empty value no log comes out clean. |
| `Redactor.RedactAroundStop` | scripts/test-e2e.sh:27 | Redaction works independently on both sides of an angle bracket. |
| `Text.ReplaceAtFirst` | scripts/test-e2e.sh:27 | Replacement acts at the first occurrence and continues after it. |
| `Text.ReplaceAroundStop` | scripts/test-e2e.sh:27 | Replacement works independently on both sides of a character that the pattern lacks. |
| `Text.ReplaceAbsent` | scripts/test-e2e.sh:27 | Replacement leaves a text without an occurrence unchanged. |
| `Resp.RequestRoundTrip` | scripts/wait-for-health.py:29-31 | Reading the request as a RESP array of bulk strings returns exactly the parts, whatever bytes they hold, CRLF and `$` included. |
| `Resp.CommandRoundTrip` | scripts/wait-for-health.py:28-31 | The words of a command arrive unchanged, and encoding fails if and only if one of them is not ASCII. |
| `Resp.WireFormat` | scripts/wait-for-health.py:29-31 | The request spelled out: `*` and the number of parts, for each part `$` and its length in decimal, line ends and the bytes themselves. |
| `Resp.ReadReply` | scripts/wait-for-health.py:35-52 | The loop ends after exactly the chunk its tests say, with exactly the outcome they say, takes a chunk per iteration and never holds more than 65536+4096 bytes. |
| `Resp.CheckPrefixOfBulk` | scripts/wait-for-health.py:43-48 | On every prefix of a bulk reply the test on the joined bytes says to go on, and on the whole of it that it is done. |
| `Resp.CheckInlineChunks` | scripts/wait-for-health.py:41-42 | On a one-line reply the test on the newest chunk says done exactly at the last chunk, and only if that chunk holds both bytes of the line end. |
| `Resp.BulkReadExactlyIff` | scripts/wait-for-health.py:43-48 | A bulk reply cut in any way is returned whole and without another `recv` if and only if all chunks but the last fit the cap. |
| `Resp.BulkChunkingIndependence` | scripts/wait-for-health.py:36-52 | The reader is independent of the cuts if and only if the frame has at most 65537 bytes. |
| `Resp.InlineReadExactlyIff` | scripts/wait-for-health.py:36-42 | A one-line reply, error lines included, is answered for as a whole and without another `recv` if and only if all chunks but the last fit the cap and no cut separates CR from LF, or the line has exactly 65537 bytes; on a connection that is then closed the cut does no harm. An error line is refused as not ready. |
| `Resp.CutPongIsMissed` | scripts/wait-for-health.py:41 | The complete answer to `PING`, cut before its line feed, is not recognised and the reader times out. |
| `Resp.NullBulkIsMissed` | scripts/wait-for-health.py:43-48 | However it is cut, the null bulk reply is never recognised as complete: the reader times out unless the peer closes the connection. |
| `Resp.RedisReady` | scripts/wait-for-health.py:61-65 | The probe's verdict is determined by the outcomes of its two replies: the first must be `+PONG` and its line end, the second must contain `cluster_enabled:0`. |
| `Resp.OccursInBulk` | scripts/wait-for-health.py:64 | Searching the whole bulk reply for such a text is searching its payload: header and line ends add no match. |
| `Resp.BulkReadUpToCap` | scripts/wait-for-health.py:36-52 | A bulk reply of any length is read whole, or up to the chunk that passes the cap, and what has been read is the answer. |
| `Resp.ProbeAcceptsIff` | scripts/wait-for-health.py:61-65 | However the two replies are cut and however long the report is, the probe accepts a server if and only if the line end of `+PONG` comes in one piece and the part of the report that is read contains `cluster_enabled:0`; up to 65537 bytes that part is the whole report. |
| `Resp.ReportVerdicts` | scripts/wait-for-health.py:63-65 | A report with the line `cluster_enabled:0` is accepted and the same with `cluster_enabled:1` refused, however it is cut. |
| `CrashPoint.SourceId` | scripts/e2e-crash-worker.py:14-15 | Text passes through; bytes give the text with the same codes if and only if all are ASCII. |
| `CrashPoint.Identity` | scripts/e2e-crash-worker.py:26-32 | The identity is the public attribute, or the private one if there is no public one at all, and only if it is a text and not empty. |
| `CrashPoint.KeysByName` | scripts/e2e-crash-worker.py:20-43 | The keys by their names: armed is one key with the value `1`; a crash removes it and sets the three fields of the other, and touches no third key. |
| `CrashPoint.Worker.CrashBeforeAck` | scripts/e2e-crash-worker.py:23-46 | Exactly when the wrapped call passes on, raises or kills the process, and the exact keys in each case: unarmed calls and calls that fail before the transaction change nothing. |
| `CrashPoint.ArmRealWorkerCrash` | scripts/verify-e2e.py:545-548 | For each of the three services arming removes the one named key and sets the other to `1`, and touches nothing else; for an unknown service nothing at all. |
| `CrashPoint.CrashObservation` | scripts/verify-e2e.py:551-559 | The loop over the three fields tells nothing, a whole record and anything else apart. |
| `CrashPoint.ObservedAfterCrash` | scripts/e2e-crash-worker.py:33-44 | After a crash the harness reads back the source id, the owner and the attempts as the same number, whatever an earlier record held; only an empty source id spoils it. |
| `CrashPoint.ArmedThenUnobserved` | scripts/verify-e2e.py:545-548 | After arming, a service is armed and has no record. |
| `CrashPoint.OthersUnaffected` | scripts/e2e-crash-worker.py:20-21 | Arming or crashing one service changes neither the arming nor the record of another. |
| `CrashRefinement.StepRefines` | scripts/e2e-crash-worker.py:23-46 | Every step of the protocol and its Redis commands keep keys and state in correspondence. |
| `CrashRefinement.KeysFollowTheProtocol` | scripts/verify-e2e.py:545-559 | Along every run, with any number of workers, what the crash point and the harness read from Redis is what the transition system says. |
| `CrashRefinement.AssertRealCrashedPending` | scripts/verify-e2e.py:575-592 | Whatever state of the protocol the record and the pending lines were read from, the assertions pass if and only if that state's record agrees with its group: the entry is pending for the recorded owner with the recorded number of deliveries. |
| `CrashRefinement.AcceptsIff` | scripts/verify-e2e.py:575-592 | On the texts of a represented state those assertions pass if and only if the record agrees with the group in the state itself. |
| `CrashProtocol.StepKeepsInv` | scripts/e2e-crash-worker.py:23-46 | Every step keeps the invariant: entries conserved, effects unique and before acknowledgements, what each live worker knows, identities, ownership. |
| `CrashProtocol.RunKeepsInv` | scripts/e2e-crash-worker.py:23-46 | The same over whole runs. |
| `CrashProtocol.StreamIdIff` | scripts/verify-e2e.py:541 | An entry id is digits, a hyphen and digits. |
| `CrashProtocol.IncarnationIff` | scripts/verify-e2e.py:577 | An incarnation's identity is the operator label, a colon and anything. |
| `CrashSafety.EffectsAtMostOnce` | scripts/verify-e2e.py:919-927 | Given that applying an effect again changes nothing: in every run, with any number of workers, each logical event's effect is there at most once and before any acknowledgement, and each entry is waiting, pending or acknowledged, only one of these. |
| `CrashSafety.EffectsOnlyGrow` | scripts/verify-e2e.py:979-997 | No run undoes or reorders an effect, or drops or changes an entry or an acknowledgement. |
| `CrashSafety.NoFurtherEffects` | scripts/verify-e2e.py:761-768 | Once every event has had its effect, no replay, crash or restart adds one; that replays of any of them can always follow is `CrashReplay.ReplayIsAcknowledged`. |
| `CrashSafety.DeliveriesAreCounted` | scripts/verify-e2e.py:587-591 | The delivery count of a pending entry is the number of times the run handed it out. |
| `CrashSafety.ApplicationsAreHandovers` | scripts/e2e-crash-worker.py:2 | In every run an entry's effect is applied at most as often as the entry is handed out. |
| `CrashSafety.GoneNeverActs` | scripts/e2e-crash-worker.py:44-46 | After its crash an incarnation does nothing more in any run, in particular acknowledges nothing. |
| `CrashSafety.CrashAgreesIff` | scripts/e2e-crash-worker.py:33-44 | With any number of workers, the record agrees with the group right after the crash if and only if the crashing worker still owned its entry. |
| `CrashSafety.StepKeepsAgreement` | scripts/verify-e2e.py:562-592 | A step of any worker keeps an agreeing record in agreement if and only if it is no reclaim of that entry, no new arming and no other crash. |
| `CrashSafety.CrashAgreementIff` | scripts/verify-e2e.py:562-592 | In every run, with any number of workers and any armings: the record of a crash agrees with the group at a later point if and only if the crashing worker owned its entry and every step since has spared the record; an agreement once broken never comes back. |
| `CrashSafety.CrashAgreement` | scripts/verify-e2e.py:562-592 | If one worker was live up to its crash: whatever follows, with however many workers and whatever armings, the recorded id, owner and attempts are those of a still pending entry if and only if no step since has reclaimed that entry, started an arming or crashed a worker; the harness's check then passes, and the dead incarnation never acknowledges. |
| `CrashSafety.OrderlyCrashAgreement` | scripts/verify-e2e.py:562-592 | With one live worker and armings only while disarmed, nothing but a reclaim of the entry or a new arming ends the agreement. |
| `CrashSafety.CrashCountsDeliveriesIff` | scripts/e2e-crash-worker.py:40 | In every run the recorded attempts are the number of times the entry had been handed out if and only if the crashing worker still owned it, and fewer otherwise. |
| `CrashSafety.CrashCountsDeliveries` | scripts/e2e-crash-worker.py:40 | With one live worker, whenever the harness arms, the recorded attempts are the number of times the entry had been handed out. |
| `CrashSafety.RunKeepsLone` | scripts/verify-e2e.py:545-592 | Along runs with one live worker, whenever the harness arms, the worker owns the entry it is busy with, is trapped only while armed, and crashes do not exceed armings. |
| `CrashSafety.CrashesWithinArmings` | scripts/verify-e2e.py:545-548 | With one live worker, whenever the harness arms, crashes never exceed armings, the one still to come included. |
| `CrashSafety.OneCrashPerArming` | scripts/verify-e2e.py:545-548 | With one live worker and armings only while disarmed: never armed and observed at once, and every arming but a still pending one has crashed exactly one worker. `ArmedAndObservedIff` and `CrashAccounts` say exactly when each half holds in other runs. |
| `CrashLimits.CrashAccounts` | scripts/e2e-crash-worker.py:24-44 | In every run at all: crashes, a pending arming and overwritten armings add up to armings and stray crashes; crashes exceed armings if and only if there are more strays than armings left over. |
| `CrashLimits.StolenEntry` | scripts/verify-e2e.py:562-592 | With two live workers the harness's check can fail: the second reclaims before the first crashes. |
| `CrashLimits.TwoCrashes` | scripts/e2e-crash-worker.py:24-44 | With two live workers one arming can crash both, because reading the arming and using it up are separate. |
| `CrashLimits.ArmedAndObserved` | scripts/verify-e2e.py:547-548 | With an arming that starts while armed, one live worker is enough to end up armed and observed. |
| `CrashLimits.CrashInsideNextArming` | scripts/verify-e2e.py:545-548 | Armings only while disarmed are not enough with two live workers: the second can crash inside the next arming, which ends armed and observed. |
| `CrashArming.ArmedAndObservedIff` | scripts/verify-e2e.py:545-548 | In every run, with any number of workers and any arming discipline: some state is armed and observed if and only if a worker crashes between the two commands of some completed arming. |
| `CrashArming.FlagsFollowSteps` | scripts/verify-e2e.py:545-559 | After every step of every run the armed, arming and observed flags are what the order of the crashes and arming commands so far says. |
| `CrashArming.ArmingsPair` | scripts/verify-e2e.py:545-548 | Armings do not overlap: in every run their starts are their ends, one more while one is under way. |
| `CrashLimits.AppliedTwice` | scripts/e2e-crash-worker.py:2 | Even with one live worker a crash makes an entry's effect be applied twice, so that exactly-once rests on idempotent effects. |
| `CrashProgress.ProgressIsBounded` | scripts/verify-e2e.py:979-997 | With one live worker, whenever the harness arms: the workers' own steps are bounded by the added entries, armings and deaths of the run, by a measure that every worker step lowers. |
| `CrashLivelock.UnboundedWork` | scripts/verify-e2e.py:979-997 | With two live workers no bound holds: one added entry allows runs with any number of worker steps, because the two can reclaim it from each other for ever. |
| `CrashDrain.NeverStuck` | scripts/verify-e2e.py:979-992 | In every reachable state, with any number of workers and any armings, an unacknowledged entry leaves some worker step or a restart possible. |
| `CrashDrain.Drain` | scripts/verify-e2e.py:979-992 | From every reachable state, with any number of workers and any armings, the workers' own steps alone reach a state with nothing waiting or pending. |
| `CrashDrain.DrainedExactlyOnce` | scripts/verify-e2e.py:919-927 | At the end of any run that has drained, every entry is acknowledged and the effects are exactly those of the added events, each once. |
| `CrashDrain.RestIsDrained` | scripts/verify-e2e.py:979-992 | A run in which no worker step is possible any more has drained. |
| `CrashReplay.ReplayIsAcknowledged` | scripts/verify-e2e.py:761-768 | In every state that a run can reach, every event, already in the stream or not, can be added under every free stream id; the workers' own steps then acknowledge the new entry and all others, and if all had had their effects before, the effects are unchanged. |
| `CrashReplay.CrashIsPossible` | scripts/verify-e2e.py:545-592 | In every state that a run can reach, whatever the other workers do, the harness can arm, and every worker that is idle or can be started takes every entry that is not acknowledged, whoever holds it, has its effect, leaves the record and dies; the harness's check passes and nothing else has changed. |
| `CrashReplay.CrashIsRecovered` | scripts/verify-e2e.py:979-997 | From every such state the workers' own steps acknowledge everything, keep all effects, and add none if every event had had its own. |
| `CrashReplay.DeathIsPossible` | scripts/e2e-crash-worker.py:44-46 | A process can die at any moment, and everything else stays as it is. |
| `CrashLimits.ReplayedEntry` | scripts/verify-e2e.py:761-768 | A run in which the same event is under two entry ids, both acknowledged, and its effect is there once. |
| `Poll.Poll` | scripts/verify-e2e.py:386-399 | Polling stops at the first accepted probe or the first probe found past the deadline, returns only an accepted value, and makes at most ceil(timeout/interval)+1 probes: each after the second stands for a whole interval before the deadline, and without a positive timeout there is one. |
| `Poll.NoFalseTimeout` | scripts/verify-e2e.py:386-399 | With instantaneous probes, a predicate that holds from some time up to the deadline onward is never reported as a timeout. |
| `Poll.PolledUnique` | scripts/verify-e2e.py:392-399 | What the outside does determines the result and the number of probes. |
| `Poll.BoundIsAttained` | scripts/verify-e2e.py:386-399 | The bound is tight: on a clock with exact sleeps a predicate that never holds is probed exactly that often. |
| `Seed.Database.InsertUsers` | scripts/seed.py:38-50 | The loop computes the insert-if-absent fold over the users. |
| `Seed.Database.InsertOrganizations` | scripts/seed.py:51-58 | The same for organizations. |
| `Seed.Database.InsertMemberships` | scripts/seed.py:59-69 | The same for the paired memberships, whose foreign keys are always there. |
| `Seed.Database.Run` | scripts/seed.py:37-69 | The three loops leave the tables of the specification and never miss a foreign key. |
| `Seed.Database.SeedTenants` | scripts/seed.py:24-69 | The database is seeded with the two tenants if and only if both inputs are given, driver and host are the expected ones and the password is strong; otherwise it stays as it is. |
| `Seed.IsStrongIff` | scripts/seed.py:32-33 | A password is strong if and only if it has 16 ASCII characters at least and neither starts nor ends with one of the ten that `strip` takes away. |
| `Seed.FreshDatabase` | scripts/seed.py:14-69 | Seeding an empty database leaves the two users, the two organizations and the two analyst memberships, with their identifiers, addresses and names. |
| `Seed.SeedUsersRows` | scripts/seed.py:38-50 | After seeding: the old users unchanged, and the listed ones that were absent, active and with the data and hash of their first listing. |
| `Seed.SeedOrganizationsRows` | scripts/seed.py:51-58 | The same for organizations. |
| `Seed.SeedMembershipsRows` | scripts/seed.py:59-69 | The same for memberships, new ones as analysts. |
| `Seed.SeedingIsIdempotent` | scripts/seed.py:37-69 | Seeding twice, even with other password hashes, is seeding once. |
| `Seed.SeedingIsSound` | scripts/seed.py:37-69 | From referentially sound tables seeding gives sound tables and changes no existing row. |

## Left out

- Docker, Compose, `psql`, `redis-cli`, MinIO and Mailpit calls and the embedded probe scripts: I/O without logic to prove.
- Browser sessions, login, CSRF tokens, redirects and page checks, URL helpers: library plumbing and single-value checks.
- Consumers, outbox publisher and control API: they are not in this repository; only the assumptions named above are used.
- `scripts/verify-runtime.py` and the fixed scenarios of the end-to-end run: single-value assertions.
- Compose files, IAM policy, lifecycle rules and image manifests: declarative data enforced elsewhere.
- Timestamp.NormalizeIff: reads `YYYY-MM-DDThh:mm:ss`, a fraction and an offset in hours and minutes only; basic formats, week dates, other separators, shortened times and offsets with seconds, which `fromisoformat` also reads, are not modelled.
- JsonRoundTrip.LoadsOfDumps: floats are tokens, so their printing is not modelled; neither are lone surrogates, the recursion limit, the limit of 4300 digits for integers, nor reading `NaN` and `Infinity`.
- JsonRoundTrip.RenderInjective: compact separators only; the spaced style is used by the scanner alone and never read.
- LeakScan.AssertNoForbidden: values are JSON values with string keys; `default=str` and other key types are not modelled.
- LeakScan.AssertHttpResponsesSafe: header texts that cannot be encoded (lone surrogates) are not modelled.
- LeakScan.RedisScanIff: about the bytes that `DUMP` returns; what Redis compresses inside them is not modelled.
- Redactor.RedactLog: starts from the lines of the environment file; `splitlines` and the lossy decoding of the log are not modelled.
- Decimal.ToIntIff: white space, underscores and digits of other scripts, which `int` also accepts, are refused here.
- Uuid.CanonicalIff: underscores, signs and white space, which `int(hex, 16)` also accepts, are refused here; no printed identifier holds any.
- Resp.ReadReply: a bulk length is an optional sign and digits; white space and underscores, which `int` also accepts, are refused here, and the parts of the URL check before the probe are left out.
- Redactor.CleansEveryLogIff: for values without angle brackets only, where few logs are enough; all other lists are decided by `RedactorDecision.ShortLogsDecide` with more of them.
- CrashSafety.EffectsAtMostOnce: that effects do not repeat is the assumption about the consumers, which `Apply` builds in; how often a consumer applies them is bounded, not once.
- Csv.ReadWrittenRows: the reader is the one of section 2 of RFC 4180, not Python's own `csv.reader`.
- CrashProtocol.StepKeepsInv: idle times, which decide when an entry may be reclaimed, are abstracted to reclaiming at any time, and stream trimming and dead-letter entries are not modelled.
- CrashRefinement.AssertRealCrashedPending: `\d` stands for ASCII digits, the only ones that Redis issues; the polling around it is the model of `Poll`.
- CrashProgress.ProgressIsBounded: counts steps, not time; that a possible step is eventually taken is not modelled.
- Poll.Poll: time is real numbers, so floating-point rounding of the deadline is not modelled.
- Seed.Database.SeedTenants: the URL parser's driver and host are parameters, and constraints other than primary and foreign keys, such as unique emails, are not modelled.
