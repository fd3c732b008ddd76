# Models of the Sensu InfluxDB handler and the libraries it drives

The handler turns the metrics of an event into InfluxDB points and sends them as line protocol. This
project models, in Dafny, the code on that way which has the most branching and state, and proves what
it is for.

- **Line protocol** (`models/points.go`, `models/time.go`): the printers and the hand-written scanners
  are modelled statement by statement and proved against functions on byte strings. Main results:
  `ScanKey.CanonicalKey`, `KeyRoundTrip.KeyRoundTrip`, `PointRoundTrip.PointRoundTrip`,
  `BatchRoundTrip.BatchRoundTrip`, `FieldIterator.FieldsReadBack`, `Split.SplitSizes` and
  `Times.SafeCalcTimeExact`.
- **json-iterator** (`iter*.go`, `stream_*.go`): the cursor is a class over a buffer that is refilled
  from a reader; a reader is any list of chunks, so a contract over `Rest()` holds for every cutting of
  the input. Main results: `JsonRead.ReadBack`, `SkipSloppy.Skip`, `SkipStrict.Skip`,
  `JsonTree.AcceptedByBoth`, `Utf8.RuneUnique` and `JsonInt.ReadInt64`.
- **Edit distance** (cobra's `ld`): `Levenshtein.CellIsDistance` and the metric laws.
- **Coordinator**: the shard writers and the collector as a state machine over all interleavings
  (`WriteProtocol`), the shard mapping (`ShardMap`) and the buffered writer (`BufferedWriter`).
- **Emitter** of query rows and the **handler's** own name and time handling.

`dafny verify dfyconfig.toml` checks the whole project. One module is in one file of the same name;
`Bytes` and `Decimal` hold what the others share.

## Where the code does less than one would expect

The contracts follow the code, and say exactly when it does what its callers want.

- A key is read back only if no token before a delimiter ends in a backslash, because measurement and
  tag escaping leave the backslash alone (`KeyRoundTrip.KeyRoundTrip`, `KeyRoundTrip.TrailingBackslash`).
- Tags are sorted by plain key when a point is made, but by escaped key when a line is parsed
  (`PointRoundTrip.PlainOrderIsNotEnough`), and the scanner of tags panics when the tags exactly fill its
  table of 100, 200, 400, ... entries (`ScanKey.ScanTags`). `PointRoundTrip.PointRoundTrip` is an
  equivalence over both conditions and those on the name and the tags.
- A newline in a name, a tag or a field key is not escaped and ends the line, and a line whose name starts
  with `#` is taken for a comment and its point is gone without an error (`BatchRoundTrip.NewlineInName`,
  `BatchRoundTrip.HashBeforeName`). `BatchRoundTrip.BatchRoundTrip` is an equivalence over these conditions.
- The parser accepts a comma after the last field if a backslash precedes it, and Split does not count that
  comma: it can return a point that is one byte too long and has more than one field
  (`Split.CommaAfterLastField`). `Split.SplitSizes` says that this is the only case.
- A backslash in a field key is not escaped, so one before a special byte frees that byte
  (`FieldRoundTrip.UnsafeKeyRefused`); several such keys can make up for each other
  (`FieldRoundTrip.UnsafeKeysAccepted`).
- `StringSize` is wrong for the smallest 64-bit time, which its negation leaves unchanged
  (`Points.StringSize`).
- The overflow test of the integer reader is one-sided (`JsonInt.MissedOverflow`,
  `JsonInt.ReadExactly`).
- The strict skipper fails on a number that is too big for a float64 if and only if the byte after it is
  not in the buffer yet (`SkipStrict.SkipNumber`).
- A raw control character in a string is refused exactly if it is in the buffer before the closing quote and
  the first backslash, so it depends on how the input is cut into reads (`JsonRead.ReadString`,
  `JsonRead.ControlCharacter`).
- A fraction after a zero is refused only if its dot is in the buffer (`JsonInt.ReadUint64From`,
  `JsonInt.FractionAfterZero`).
- A round of the loop of a buffered writer of capacity zero changes nothing, so the loop never ends
  (`BufferedWriter.Writer.Round`).

## Model

| member | source | states |
|---|---|---|
| Escape.EscapeAll | src/github.com/influxdata/influxdb/models/points.go:1238-1269 | replacing one special byte after the other gives the text with a backslash before each special byte, for every order of the replacements |
| Escape.UnescapeAll | src/github.com/influxdata/influxdb/models/points.go:1247-1283 | undoing the replacements one after the other equals unescaping in one pass |
| Escape.UnescapeStringField | src/github.com/influxdata/influxdb/models/points.go:1300-1328 | the loop equals unescaping double quotes and backslashes in one pass |
| Escape.UnescapeEscape | src/github.com/influxdata/influxdb/models/points.go:1238-1328 | unescaping undoes escaping on every byte string, for each of the three sets of special bytes |
| Escape.EscapedNotBare | src/github.com/influxdata/influxdb/models/points.go:1238-1269 | in escaped text no special byte stands without a backslash before it |
| Scan.ScanMeasurement | src/github.com/influxdata/influxdb/models/points.go:591-622 | stops at the first unescaped comma or space, or reports the missing name or fields |
| Scan.ScanTagsKey | src/github.com/influxdata/influxdb/models/points.go:662-689 | stops after the first unescaped equals sign, or reports why the key is malformed |
| Scan.ScanTagsValue | src/github.com/influxdata/influxdb/models/points.go:691-725 | stops at the first unescaped comma or space, or reports why the value is malformed |
| Scan.ScanTo | src/github.com/influxdata/influxdb/models/points.go:1150-1168 | finds the first unescaped stop byte |
| Scan.ScanToSpaceOr | src/github.com/influxdata/influxdb/models/points.go:1171-1193 | finds the first unescaped space or stop byte |
| Scan.ScanTagValue | src/github.com/influxdata/influxdb/models/points.go:1195-1211 | finds the first unescaped comma |
| Scan.SkipWhitespace | src/github.com/influxdata/influxdb/models/points.go:1081-1090 | passes over blanks, tabs and NUL bytes |
| ScanKey.ScanTags | src/github.com/influxdata/influxdb/models/points.go:627-658 | the table of positions grows by doubling; the result is that of tag-by-tag scanning, and the call panics if and only if the tags exactly fill the table |
| ScanKey.TagsChained | src/github.com/influxdata/influxdb/models/points.go:627-658 | the positions found are the starts of the tags, each right after the comma that ends the one before |
| ScanKey.InsertionSort | src/github.com/influxdata/influxdb/models/points.go:727-740 | sorts the positions in place: the array holds the same positions in the order of their raw keys, the rest unchanged |
| ScanKey.SortTexts | src/github.com/influxdata/influxdb/models/points.go:727-740 | the texts at the sorted positions are the sorted texts, so the order does not depend on where the tags stand |
| ScanKey.Rebuild | src/github.com/influxdata/influxdb/models/points.go:551-559 | the buffer for the new key is filled exactly: name, then a comma and the text of each tag |
| ScanKey.OrderTags | src/github.com/influxdata/influxdb/models/points.go:518-578 | tags in order keep the line as key, others are sorted and rebuilt, and equal neighbours are reported |
| ScanKey.ScanKey | src/github.com/influxdata/influxdb/models/points.go:485-579 | the whole of scanKey against the specification: error, panic, or position and canonical key |
| ScanKey.CanonicalKey | src/github.com/influxdata/influxdb/models/points.go:485-579 | two lines with the same name and permuted tags give the same key, whose tags are a permutation in strictly rising key order; an error if and only if two keys are equal |
| TagOrder.CanonicalOrder | src/github.com/influxdata/influxdb/models/points.go:539-575 | sorting permutations of tags with distinct keys gives the same strictly rising list |
| TagOrder.StrictOrderUnique | src/github.com/influxdata/influxdb/models/points.go:735-740 | a list of tags has at most one strictly rising permutation |
| TagKeys.AppendHashKey | src/github.com/influxdata/influxdb/models/points.go:2150-2205 | the buffer of the computed size takes all tags with a value, escaped, and is cut to what was written |
| TagKeys.NeedsEscape | src/github.com/influxdata/influxdb/models/points.go:2136-2147 | true if and only if some key or value has a special byte |
| TagKeys.AppendMakeKey | src/github.com/influxdata/influxdb/models/points.go:1621-1632 | appends the escaped name and the tags |
| TagKeys.ParseTags | src/github.com/influxdata/influxdb/models/points.go:1591-1618 | on arbitrary bytes the walk ends, finds the tags of the specification and never writes past the number of commas |
| TagKeys.WalkInto | src/github.com/influxdata/influxdb/models/points.go:1524-1562 | the walk with positions finds the tags of the recursive definition on suffixes |
| TagKeys.ParseKeyBytes | src/github.com/influxdata/influxdb/models/points.go:293-311 | name and tags of a key on arbitrary bytes |
| KeyRoundTrip.KeyRoundTrip | src/github.com/influxdata/influxdb/models/points.go:297-311 | ParseKeyBytes gives back name and non-empty tags of MakeKey if and only if no token that is followed by a delimiter ends in a backslash |
| KeyRoundTrip.TagsRoundTrip | src/github.com/influxdata/influxdb/models/points.go:1524-1618 | the tags are read back if and only if none of those tokens ends in a backslash |
| KeyRoundTrip.NameKept | src/github.com/influxdata/influxdb/models/points.go:1626-1632 | a name is kept by MakeKey if and only if it holds no escaped delimiter |
| KeyRoundTrip.TrailingBackslash | src/github.com/influxdata/influxdb/models/points.go:1238-1245 | a name ending in a backslash that is not read back |
| Fields.AppendField | src/github.com/influxdata/influxdb/models/points.go:2388-2449 | appends the escaped key, an equals sign and the text of the value with its type suffix |
| Fields.MarshalFields | src/github.com/influxdata/influxdb/models/points.go:2367-2386 | the fields in order, separated by commas |
| Fields.CheckNumber | src/github.com/influxdata/influxdb/models/points.go:953-1016 | the tests after the loop of the number scanner: no suffix with a dot or an exponent, at least one digit, the suffix last, and in range where the length makes a test necessary |
| Fields.ScanNumber | src/github.com/influxdata/influxdb/models/points.go:883-1020 | the number scanner accepts or refuses as the specification of digits, sign, dot, exponent and suffix says |
| Fields.ScanBoolean | src/github.com/influxdata/influxdb/models/points.go:1024-1077 | the boolean scanner accepts exactly the listed words |
| Fields.ScanFields | src/github.com/influxdata/influxdb/models/points.go:744-842 | the automaton over quotes, equals signs and commas: its end or its error |
| FieldRoundTrip.PrintedFieldsScan | src/github.com/influxdata/influxdb/models/points.go:744-842 | scanFields accepts every printed list of fields, whatever bytes its strings hold, and stops right after it, if in no key a backslash frees a special byte |
| FieldRoundTrip.UnsafeKeyRefused | src/github.com/influxdata/influxdb/models/points.go:761-765 | a printed field whose key has a backslash before a comma, and which the scanner refuses |
| FieldRoundTrip.UnsafeKeysAccepted | src/github.com/influxdata/influxdb/models/points.go:761-765 | three printed fields with such keys that make up for each other, so that the scanner accepts them: the condition on the keys is enough but not necessary |
| FieldWalk.ScanFieldValue | src/github.com/influxdata/influxdb/models/points.go:1213-1236 | finds the first comma outside quotes |
| FieldWalk.WalkFields | src/github.com/influxdata/influxdb/models/points.go:1566-1588 | the loop over keys and values with the size test of the parser |
| FieldWalk.PrintedKeySizes | src/github.com/influxdata/influxdb/models/points.go:408-437 | printed fields are never malformed, and they pass the size test if and only if every escaped key is within the limit; a key may hold backslashes but not end with one |
| FieldIterator.Iterator.Next | src/github.com/influxdata/influxdb/models/points.go:2257-2300 | the next field: its unescaped key, its type, and the text of its value |
| FieldIterator.ReadFields | src/github.com/influxdata/influxdb/models/points.go:1805-1842 | the loop over the iterator gives the fields of the specification or an error |
| FieldIterator.FieldsReadBack | src/github.com/influxdata/influxdb/models/points.go:2257-2350 | iterating over printed fields gives back all keys and values with their types, in order; a key may hold backslashes but not end with one |
| Times.SafeCalcTimeExact | src/github.com/influxdata/influxdb/models/time.go:46-74 | for every 64-bit timestamp and precision the call succeeds if and only if the true product is in range, and then returns it |
| Times.DivisionDetectsOverflow | src/github.com/influxdata/influxdb/models/time.go:65-74 | dividing the wrapped product finds every overflow of a multiplication by a precision |
| Points.ParsePoint | src/github.com/influxdata/influxdb/models/points.go:383-462 | key, fields and time of a line, with each error and the panic of the tag table |
| Points.ScanTime | src/github.com/influxdata/influxdb/models/points.go:845-874 | the digits of the time with an optional sign, up to a space, a newline or the end |
| Points.KeyShape | src/github.com/influxdata/influxdb/models/points.go:485-579 | an accepted key is as long as its text in the line, starts with the same byte, and its text is ended by a space that no backslash precedes, so the fields never start at position 0 or 1 |
| Points.ParsedShape | src/github.com/influxdata/influxdb/models/points.go:383-462 | key, space and fields of a parsed point fit into the line, and the key starts with the first byte of the line that is not blank |
| Points.StringSize | src/github.com/influxdata/influxdb/models/points.go:1702-1721 | equals the length of the printed point if and only if the time is missing or not the smallest 64-bit integer |
| PrintedKey.PrintedKeyScan | src/github.com/influxdata/influxdb/models/points.go:485-579 | scanKey on a printed key: the same name and the same tags in the order of their escaped keys, an error for equal keys, a panic for a full table |
| PrintedKey.JoinedInjective | src/github.com/influxdata/influxdb/models/points.go:551-559 | different tag lists have different key texts |
| PointRoundTrip.PointRoundTrip | src/github.com/influxdata/influxdb/models/points.go:383-462 | for every name and all tags: parsing the printed point gives back its key, field text and time, and the key gives back name and tags, if and only if the name is not empty, does not start with a tab or NUL and does not end with a backslash, no tag with a value has an empty key or a part ending with a backslash, the escaped tag keys rise strictly, and the tags do not exactly fill the table |
| PointRoundTrip.ReadTokensGood | src/github.com/influxdata/influxdb/models/points.go:485-579 | a printed key that is read back byte for byte, and whose tokens can be read back from it, has only such names and tags |
| PointRoundTrip.EmptyKeyRefused | src/github.com/influxdata/influxdb/models/points.go:662-689 | the scan of the tags fails at the first tag without a key |
| PointRoundTrip.PlainOrderIsNotEnough | src/github.com/influxdata/influxdb/models/points.go:2023 | a point with tags in the order of their plain keys that is not read back when its line is parsed |
| Lines.ScanLine | src/github.com/influxdata/influxdb/models/points.go:1093-1143 | the end of a line: the first newline outside a quoted string |
| Lines.BlocksRejoin | src/github.com/influxdata/influxdb/models/points.go:336-381 | on arbitrary bytes the blocks joined by newlines are the batch, with a newline at the end exactly if the last line is ended by one |
| Lines.CutAtJoins | src/github.com/influxdata/influxdb/models/points.go:1093-1143 | lines that are read whole are cut exactly at the newlines that join them |
| Batch.BlocksShown | src/github.com/influxdata/influxdb/models/points.go:336-368 | after its blanks no block goes on with a newline, on arbitrary bytes |
| Batch.ReadableKeys | src/github.com/influxdata/influxdb/models/points.go:336-381 | no point of a batch has a key that starts with # or a newline |
| PrintedLines.PrintedLine | src/github.com/influxdata/influxdb/models/points.go:1093-1143 | a printed point is one line wherever it stands, although its strings may hold newlines, quotes and commas, if and only if its name, tags and field keys hold no newline other than after a backslash |
| PrintedLines.WholeLine | src/github.com/influxdata/influxdb/models/points.go:350-372 | the line of a point is passed over if and only if its name starts with #; otherwise it goes to the parser as it is |
| Batch.ParsePoints | src/github.com/influxdata/influxdb/models/points.go:336-381 | blank lines and comments are passed over, and points and refused lines are collected in order |
| BatchRoundTrip.BatchRoundTrip | src/github.com/influxdata/influxdb/models/points.go:336-381 | a batch of printed points, one on each line, is read back point by point with nothing refused if and only if every point has no newline outside its strings, no # in front, its tags in order and not filling the table |
| BatchRoundTrip.Spoiled | src/github.com/influxdata/influxdb/models/points.go:336-381 | a line for which one of these fails spoils the batch, whatever follows it |
| BatchRoundTrip.NewlineInName | src/github.com/influxdata/influxdb/models/points.go:1093-1143 | a name with a newline: the batch of this one point is not read back |
| BatchRoundTrip.HashBeforeName | src/github.com/influxdata/influxdb/models/points.go:358-361 | a name that starts with #: the point is gone and no error is reported |
| BatchRoundTrip.FreedSpace | src/github.com/influxdata/influxdb/models/points.go:1093-1143 | a name in which a backslash precedes a space: the scanner of lines passes over the newline that ends the line |
| Split.SplitPoint | src/github.com/influxdata/influxdb/models/points.go:1860-1894 | the loop cuts the fields before the field that would make a piece too long |
| Split.CutJoins | src/github.com/influxdata/influxdb/models/points.go:1860-1894 | for all fields the parser accepts, the pieces joined by commas are the fields text |
| Split.ParsedFieldsScannable | src/github.com/influxdata/influxdb/models/points.go:408-437 | the fields of every parsed point have what Split and the field iterator need |
| Split.SplitSizes | src/github.com/influxdata/influxdb/models/points.go:1856-1894 | for all fields that Split can walk, hence those of every parsed point: at every size each returned point prints within the size or holds one field, if and only if no comma is left after the last field |
| Split.PieceSizes | src/github.com/influxdata/influxdb/models/points.go:1868-1893 | the same for the pieces of the fields text |
| Split.CommaAfterLastField | src/github.com/influxdata/influxdb/models/points.go:1856-1894 | a line that the parser accepts and whose point Split returns whole at a size one too small |
| Split.SplitPrinted | src/github.com/influxdata/influxdb/models/points.go:1856-1894 | on printed fields the pieces share key and time, hold the fields in order in non-empty groups, and print within the requested size or hold one field |
| Split.GreedyGroups | src/github.com/influxdata/influxdb/models/points.go:1856-1894 | groups are as long as the size allows: the first field of the next group would not have fitted |
| JsonIterator.Iterator.Parse | src/github.com/json-iterator/go/iter.go:95-103 | a reader cut into reads in any way: what is still to be read is all its bytes |
| JsonIterator.Iterator.ParseBytes | src/github.com/json-iterator/go/iter.go:106-114 | the whole input is still to be read |
| JsonIterator.Iterator.LoadMore | src/github.com/json-iterator/go/iter.go:246-274 | a refill loses no byte; it fails exactly when the reader has no more bytes, and then leaves an error |
| JsonIterator.Iterator.ReadByte | src/github.com/json-iterator/go/iter.go:232-244 | takes the first byte of what is still to be read, across refills; a zero byte and an error at the end |
| JsonIterator.Iterator.UnreadByte | src/github.com/json-iterator/go/iter.go:276-282 | puts the last byte back unless there was an error |
| JsonIterator.Iterator.NextToken | src/github.com/json-iterator/go/iter.go:175-191 | takes the first byte that is not white space, across refills |
| JsonRead.ReadU4 | src/github.com/json-iterator/go/iter_str.go:146-165 | four hexadecimal digits and their value, or an error |
| JsonRead.ReadEscapedChar | src/github.com/json-iterator/go/iter_str.go:54-112 | an escape, with surrogates combined or replaced, as the decoding function on the text says |
| JsonRead.ReadStringSlowPath | src/github.com/json-iterator/go/iter_str.go:35-52 | reads the body of a string as the decoding function says, for every cutting into reads |
| JsonRead.ReadString | src/github.com/json-iterator/go/iter_str.go:9-33 | succeeds if and only if the text decodes and no raw control character stands in the buffer before the closing quote or the first backslash, and then gives what the decoding function says; without a reader, or if the text has none at all, the cutting does not matter |
| JsonRead.ControlCharacter | src/github.com/json-iterator/go/iter_str.go:12-26 | a string with a raw tab: refused when it is read at once, read when the read ends after its quote |
| JsonRead.ReadBack | src/github.com/json-iterator/go/iter_str.go:9-112 | the encoding of any byte string followed by any suffix, cut into reads in any way, is read back and the suffix is left; the HTML encoding with malformed bytes replaced |
| JsonString.EncodedRoundTrip | src/github.com/json-iterator/go/stream_str.go:311-372 | decoding what WriteString writes gives every byte string back |
| JsonString.HtmlRoundTrip | src/github.com/json-iterator/go/stream_str.go:221-308 | decoding what WriteStringWithHTMLEscaped writes gives the string with each malformed byte replaced by U+FFFD |
| JsonString.SanitizedSame | src/github.com/json-iterator/go/stream_str.go:241-308 | the string is unchanged if and only if it is well-formed UTF-8 |
| JsonString.SanitizedValid | src/github.com/json-iterator/go/stream_str.go:241-308 | what is read back is always well-formed UTF-8 |
| JsonStream.Stream.WriteString | src/github.com/json-iterator/go/stream_str.go:311-328 | appends the quoted encoding; a run of safe bytes first, then the slow path |
| JsonStream.Stream.WriteSlow | src/github.com/json-iterator/go/stream_str.go:331-372 | copying runs of safe bytes gives the byte-by-byte encoding |
| JsonStream.Stream.WriteStringWithHTMLEscaped | src/github.com/json-iterator/go/stream_str.go:221-238 | appends the quoted HTML encoding |
| JsonStream.Stream.WriteSlowWithHTMLEscaped | src/github.com/json-iterator/go/stream_str.go:241-308 | copying runs of safe bytes and runes gives the encoding unit by unit |
| Utf8.AppendRune | src/github.com/json-iterator/go/iter_str.go:190-215 | the bytes of a rune, with the fall-through for surrogates and values out of range |
| Utf8.RuneWellFormed | src/github.com/json-iterator/go/iter_str.go:190-215 | what appendRune writes is a well-formed sequence of section 4 of RFC 3629 for the rune, or for U+FFFD |
| Utf8.RuneUnique | src/github.com/json-iterator/go/iter_str.go:190-215 | every well-formed sequence is what appendRune writes for its code point, so none is shorter |
| JsonGrammar.CountFindsEnd | src/github.com/json-iterator/go/iter_skip_sloppy.go:23-77 | on every array or object of the grammar, strict or lenient, the bracket count ends where the grammar ends |
| JsonGrammar.BracketsValue | src/github.com/json-iterator/go/iter_skip_sloppy.go:23-77 | a nested value leaves the count of either kind of bracket where it was |
| JsonGrammar.StringEndAgrees | src/github.com/json-iterator/go/iter_skip_sloppy.go:79-144 | looking only at quotes and backslashes finds the end of every well-formed string |
| SkipSloppy.CountsOdd | src/github.com/json-iterator/go/iter_skip_sloppy.go:110-124 | the backward scan, two bytes at a time, tells whether the number of backslashes is odd |
| SkipSloppy.FindStringEnd | src/github.com/json-iterator/go/iter_skip_sloppy.go:100-144 | the end of the string in the buffer, or whether the buffer ends inside an escape |
| SkipSloppy.SkipString | src/github.com/json-iterator/go/iter_skip_sloppy.go:79-95 | stops after the closing quote also when a refill cuts an escape; an error if and only if there is none |
| SkipSloppy.SkipNumber | src/github.com/json-iterator/go/iter_skip_sloppy.go:7-21 | stops at the first byte that ends a number |
| SkipSloppy.SkipGroup | src/github.com/json-iterator/go/iter_skip_sloppy.go:23-77 | stops where the bracket count is zero, with strings that refill the buffer in between; an error if and only if it never is |
| SkipSloppy.Skip | src/github.com/json-iterator/go/iter_skip.go:71-95 | in the bracket-counting build: after every well-formed value, for every cutting into reads, the cursor is right after it and there is no error; on any array or object it stops where the count ends or reports an error |
| SkipStrict.StringIsRead | src/github.com/json-iterator/go/iter_str.go:54-112 | every string of the grammar is decoded to the same end, also where a surrogate takes the next escape along |
| SkipStrict.SkipString | src/github.com/json-iterator/go/iter_skip_strict.go:61-83 | no error if and only if the text decodes and the buffer has no raw control character, whichever path is taken; the cursor is then after the string |
| SkipStrict.TrySkipNumber | src/github.com/json-iterator/go/iter_skip_strict.go:24-59 | succeeds if and only if the number has ended inside the buffer and has more than its first byte |
| SkipStrict.SkipNumber | src/github.com/json-iterator/go/iter_skip_strict.go:10-22 | stops after the number; on numbers an error if and only if it is too big for a float64 and the byte after it is not in the buffer yet; on other text what passes without an error is all number bytes |
| SkipStrict.ReadKey | src/github.com/json-iterator/go/iter_object.go:117-123 | a member name and its colon: accepted if the grammar has it, and if accepted then in the lenient grammar |
| SkipStrict.ReadItems | src/github.com/json-iterator/go/iter_array.go:33-47 | the loop over the items with Skip as callback stops after the closing bracket of every well-formed list, and only of lists of the lenient grammar |
| SkipStrict.ReadArrayCB | src/github.com/json-iterator/go/iter_array.go:28-57 | stops after every well-formed array; whatever it accepts is an array of the lenient grammar, to the same byte |
| SkipStrict.ReadObjectCB | src/github.com/json-iterator/go/iter_object.go:111-156 | stops after every well-formed object; whatever it accepts is an object of the lenient grammar, to the same byte |
| SkipStrict.Skip | src/github.com/json-iterator/go/iter_skip.go:71-95 | in the validating build: after every well-formed value the cursor is right after it and there is no error (with a reader numbers must fit a float64), and whatever it accepts is a value of the lenient grammar, to the same byte |
| JsonTree.TreeEnd | src/github.com/json-iterator/go/iter_skip.go:71-95 | the text of every JSON tree, with any white space, any escapes and numbers without exponents, is accepted to its end |
| JsonTree.SkippersAgree | src/github.com/json-iterator/go/iter_skip_sloppy.go:23-77 | on the text of every array or object tree followed by anything, grammar and bracket count stop at the same byte |
| JsonTree.SkipBoth | src/github.com/json-iterator/go/iter_skip.go:71-95 | both Skip methods on the text of every array or object tree, each with its own cutting into reads, end without an error right after it |
| JsonTree.AcceptedByBoth | src/github.com/json-iterator/go/iter_skip.go:71-95 | on any array or object text and any two cuttings: what the validating build accepts, the bracket-counting build accepts to the same byte |
| JsonTree.OutOfRange | src/github.com/json-iterator/go/iter_skip_strict.go:10-22 | a natural number is in the range of the strict skipper with a reader if and only if it is below the float64 limit |
| JsonNumber.ReadNumberAsString | src/github.com/json-iterator/go/iter_float.go:159-186 | takes all number bytes across refills |
| JsonNumber.ReadFloatSlowPath | src/github.com/json-iterator/go/iter_float.go:296-312 | stops after the number bytes; on a number an error if and only if it is out of range |
| JsonNumber.ReadPositiveFloat | src/github.com/json-iterator/go/iter_float.go:216-294 | stops after the number whichever path is taken; no error if it is in range |
| JsonNumber.ReadFloat | src/github.com/json-iterator/go/iter_float.go:207-214 | a sign and a number |
| JsonInt.InitDigits | src/github.com/json-iterator/go/stream_int.go:5-15 | fills the table of three-digit groups |
| JsonInt.WriteFirstBuf | src/github.com/json-iterator/go/stream_int.go:17-26 | the numeral of a number below 1000 |
| JsonInt.WriteUint64 | src/github.com/json-iterator/go/stream_int.go:114-168 | appends the canonical numeral of every unsigned 64-bit number |
| JsonInt.WriteUint32 | src/github.com/json-iterator/go/stream_int.go:75-99 | appends the canonical numeral of every unsigned 32-bit number |
| JsonInt.WriteInt64 | src/github.com/json-iterator/go/stream_int.go:171-180 | appends the numeral of every 64-bit integer, the smallest included |
| JsonInt.Unrolled | src/github.com/json-iterator/go/iter_int.go:254-309 | the unrolled digits give the number that one digit at a time would give |
| JsonInt.DigitLoop | src/github.com/json-iterator/go/iter_int.go:310-338 | the loop with the overflow test, across refills, gives the number of the specification and stops after it |
| JsonInt.ReadUint64From | src/github.com/json-iterator/go/iter_int.go:243-345 | for every cutting into reads: the number of the specification, the cursor on the byte after it, and an error for an overflow or a missing digit; after a zero an error if and only if the next byte of the buffer is a dot |
| JsonInt.ReadExactly | src/github.com/json-iterator/go/iter_int.go:310-338 | a digit string is read exactly if and only if its number fits in 64 bits; there is no false overflow |
| JsonInt.AccumulateWraps | src/github.com/json-iterator/go/iter_int.go:323-330 | whatever is read without an overflow is the number modulo 2^64 |
| JsonInt.MissedOverflow | src/github.com/json-iterator/go/iter_int.go:243-345 | the digits 30000000000000000000 are read as 11553255926290448384 without an error |
| JsonInt.FractionAfterZero | src/github.com/json-iterator/go/iter_int.go:243-250 | 0.5 is refused when it is read at once, and read as zero when the read ends before the dot |
| JsonInt.ReadInt64 | src/github.com/json-iterator/go/iter_int.go:220-236 | for every cutting into reads: reads back the numeral of every 64-bit integer and stops at the byte after it; a zero must have a byte after it in the buffer |
| Levenshtein.Table | src/github.com/spf13/cobra/cobra.go:170-196 | every cell of the filled table is the recurrence on the two prefixes |
| Levenshtein.CellIsDistance | src/github.com/spf13/cobra/cobra.go:165-198 | a cell is the length of the shortest script of inserts, deletes and substitutions |
| Levenshtein.NoShorter | src/github.com/spf13/cobra/cobra.go:182-183 | no script is shorter than the cell, although equal bytes take only the diagonal |
| Levenshtein.Script | src/github.com/spf13/cobra/cobra.go:180-195 | there is a script as short as the cell |
| Levenshtein.CellSymmetric | src/github.com/spf13/cobra/cobra.go:165-198 | the distance is symmetric |
| Levenshtein.ZeroIsEqual | src/github.com/spf13/cobra/cobra.go:165-198 | the distance is zero if and only if the strings are equal |
| Levenshtein.Triangle | src/github.com/spf13/cobra/cobra.go:165-198 | the triangle inequality |
| Levenshtein.Distance | src/github.com/spf13/cobra/cobra.go:165-198 | ld returns the length of the shortest script |
| WriteProtocol.StepKeeps | src/github.com/influxdata/influxdb/coordinator/points_writer.go:309-364 | every step of any writer or of the collector keeps the invariant |
| WriteProtocol.NeverBlocks | src/github.com/influxdata/influxdb/coordinator/points_writer.go:309-319 | over every run: a writer with a result finds room on the channel, also after the caller has returned |
| WriteProtocol.NilMeansWritten | src/github.com/influxdata/influxdb/coordinator/points_writer.go:343-364 | over every run: a nil return means that the last write of every shard succeeded and no point was dropped |
| WriteProtocol.CountedOnce | src/github.com/influxdata/influxdb/coordinator/points_writer.go:367-402 | over every run: WriteOK and WriteErr are the numbers of finished writes with and without success |
| WriteProtocol.AtMostTwo | src/github.com/influxdata/influxdb/coordinator/points_writer.go:367-402 | over every run: the store is asked at most twice for a shard, and a second time only after an answer that was neither a success nor a partial write |
| ShardMap.LessIsBefore | src/github.com/influxdata/influxdb/services/meta/data.go:1306-1324 | on groups that do not overlap the order with truncated ends is the order in time |
| ShardMap.Search | src/github.com/influxdata/influxdb/coordinator/points_writer.go:262-264 | binary search finds the first group that ends after the time |
| ShardMap.ShardGroupAt | src/github.com/influxdata/influxdb/coordinator/points_writer.go:262-270 | finds the group that covers a time if and only if there is one |
| ShardMap.Covers | src/github.com/influxdata/influxdb/coordinator/points_writer.go:246-251 | true if and only if some group covers the time |
| ShardMap.InsertOrdered | src/github.com/influxdata/influxdb/coordinator/points_writer.go:273-277 | appending a group that overlaps none keeps the list in order and loses no group |
| ShardMap.ShardMapping.MapPoint | src/github.com/influxdata/influxdb/coordinator/points_writer.go:114-120 | adds the point after the points of its shard; the capacity test never discards a point |
| ShardMap.Groups | src/github.com/influxdata/influxdb/coordinator/points_writer.go:199-223 | every point that is not older than the cutoff is covered, unless the store fails |
| ShardMap.MapShards | src/github.com/influxdata/influxdb/coordinator/points_writer.go:190-241 | every point is at its destination in the order of the batch or dropped, and only points older than the cutoff are dropped |
| ShardMap.LandsOnce | src/github.com/influxdata/influxdb/coordinator/points_writer.go:225-240 | a point lands as often as it is in the batch, all at one destination |
| BufferedWriter.Writer.Flush | src/github.com/influxdata/influxdb/coordinator/statement_executor.go:1166-1183 | one batch with the whole buffer, or the buffer kept on an error |
| BufferedWriter.Writer.Round | src/github.com/influxdata/influxdb/coordinator/statement_executor.go:1138-1160 | one round of the loop takes as many points as there is room for; with a capacity of zero it changes nothing |
| BufferedWriter.Writer.WritePointsInto | src/github.com/influxdata/influxdb/coordinator/statement_executor.go:1132-1163 | nothing is lost or reordered, batches written on the way have exactly the capacity, the buffer is not left full, and the loop ends if the capacity is positive |
| BufferedWriter.Drive | src/github.com/influxdata/influxdb/coordinator/statement_executor.go:1132-1183 | over any sequence of successful calls: batches and buffer are all points in order |
| Emitter.Emitter.Emit | src/github.com/influxdata/influxdb/query/emitter.go:36-69 | returns the next row of the specification; more is set exactly when another row follows |
| Emitter.Drain | src/github.com/influxdata/influxdb/query/emitter.go:36-81 | draining gives all rows of the scan |
| Emitter.RowsCut | src/github.com/influxdata/influxdb/query/emitter.go:36-81 | the rows cut the scan into pieces in order, each of one series |
| Emitter.RowsPartial | src/github.com/influxdata/influxdb/query/emitter.go:49-66 | a row is partial if and only if the next row goes on with its series, and then has exactly the chunk size; no row is longer |
| Handler.SplitName | src/sensu-influxdb-handler/main.go:149-156 | for a dotted name measurement, dot and field key make the name again; otherwise the key is "value" |
| Handler.SplitJoin | src/sensu-influxdb-handler/main.go:149-154 | joining undoes splitting |
| Handler.Normalise | src/sensu-influxdb-handler/main.go:158-165 | for every 64-bit timestamp parsing the cut text succeeds and gives the number cut to ten characters |
| Handler.CutDigits | src/sensu-influxdb-handler/main.go:158-161 | below ten to the width the number is kept, otherwise exactly that many digits are left |

## Left out

- Network, TLS, environment, logging, monitoring and the HTTP clients: input and output only.
- json-iterator's reflection, configuration, pools, `any` values and the capture of skipped bytes: they rest on reflection and unsafe pointers.
- Float values: a float field is the text that is printed for it, and the readers of JSON numbers are modelled for how far they move the cursor; which texts `strconv.ParseFloat` refuses is a parameter, except that a plain number is refused exactly from the float limit on.
- Numbers with exponents in the grammar of the skippers: an exponent out of range is refused by one build and not by the other.
- Values that run into the end of a reader: the cursor is not moved by a failed refill.
- The default time of `ParsePoints` and the truncation to a precision: the fallback time is a parameter.
- Field values of other types than float, integer, unsigned, string and boolean: they are converted first or printed by `fmt`.
- Go's `sort.Sort`, `strings.Split`, `strings.Join`, `bytes.Replace` and `strings.ToLower`: given as functions; `sort.Search` and `insertionSort` are written out.
- `CreateShardGroup` and `WriteToShard`: the store is a function with non-overlapping answers, or any answer at each step.
- The map of `Fields`: the model keeps the list of pairs in order, so a repeated key is not overwritten.
- Line protocol subscriptions, statistics other than WriteOK, WriteErr and timeouts: counters only.
- FieldRoundTrip.PrintedFieldsScan: field keys in which a backslash precedes a special byte are left out; by `FieldRoundTrip.UnsafeKeyRefused` and `FieldRoundTrip.UnsafeKeysAccepted` the outcome depends on all fields together.
- FieldWalk.PrintedKeySizes: field keys must not end with a backslash, which would escape the equals sign.
- FieldIterator.FieldsReadBack: field keys must not be empty, which the iterator passes over, and not end with a backslash.
- PointRoundTrip.PointRoundTrip: the fields are those that scanFields accepts; the equivalence is over names and tags.
- BatchRoundTrip.BatchRoundTrip: tokens in which a backslash precedes a special byte are left out; `BatchRoundTrip.FreedSpace` shows that the scanner of lines can then take a part of the key for fields.
- PrintedLines.PrintedLine: the same tokens are left out.
- Split.SplitPrinted: field keys must not end with a backslash; `Split.SplitSizes` is for all fields.
- JsonInt.ReadInt64: a zero at the end of the buffer is left out, because the test for a dot looks at the buffer beyond its filled part; `JsonInt.ReadUint64From` has the exact condition.
- JsonNumber.ReadFloatSlowPath: the float value is not modelled.
- JsonNumber.ReadPositiveFloat: the float value is not modelled.
- JsonNumber.ReadFloat: the float value is not modelled.
- SkipStrict.Skip: with a reader, numbers must fit a float64 to be accepted for certain; `SkipStrict.SkipNumber` has the exact condition. What it accepts is described by a grammar that is looser in strings, numbers and member names.
- BufferedWriter.Writer.WritePointsInto: the writer below is modelled by how many batches it will still accept.
- ReadUint32, ReadInt32 and the writers of smaller integers: the same code at other widths.
