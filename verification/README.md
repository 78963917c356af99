# GreenGateway: verified models of the configuration core

Dafny models of the parts of GreenGateway that stand between untrusted bytes and
stored state, and proofs of what their documentation promises. Verify with
`dafny verify dfyconfig.toml`.

| modules | what they model |
|---|---|
| `ArchiveNames`, `ArchiveClaims`, `ArchiveAdmission`, `ArchiveStreams`, `ArchiveGuard`, `Extraction` | the archive admission guard of `gateway-config/src/archive.rs`: names, the table of claimed paths, admission, bounded copying, and what extraction then does to a filesystem |
| `Utf16Order`, `JsonText`, `Decimals`, `Doubles`, `DigitChoice`, `NumberLayout`, `NumberForm`, `JsonNumbers`, `CanonicalJson`, `JsonReader`, `DigestFrame` | RFC 8785 canonical JSON and the digest frame of `gateway-config/src/canonical_json.rs` |
| `OriginPath` | the origin-relative path normaliser of `gateway-config/src/connections.rs` |
| `BackupTypes`, `BackupGroups`, `BackupArchive`, `BackupWorld`, `BackupTrace`, `BackupPublication` | backup creation and read-back of `gateway-config/src/backup.rs` |
| `LicenseExpression`, `DependencyClosure` | the SPDX expression scanner and the dependency closure of `scripts/ggctl_release.py` |
| `PngHeader`, `PngChunks` | the PNG structure check of `scripts/check-test-evidence.py` |
| `Recovery` | recovery verdicts of `scripts/qualification.py` |
| `Bytes`, `Utf8`, `Ordering`, `Results` | bytes, splitting, big-endian integers, UTF-8, orders and sorting, `Result` and `Option` |

The main results:

- **The guard is a pairwise rule.** A header sequence is admitted in full exactly when
  every header is legal on its own, the count and the declared total fit, and every two
  entries are compatible; so acceptance does not depend on order
  (`ArchiveGuard.AdmitAll`, `ArchiveAdmission.AdmissiblePermuted`).
- **Extraction is safe.** Admitted entries, in any order, on a case-insensitive
  filesystem never overwrite or enter a file and always leave the same tree
  (`Extraction.ExtractionIsSafe`).
- **Canonical bytes identify the value.** Two encodable values have the same bytes exactly
  when they mean the same, numbers being their double values, on whatever platform
  (`CanonicalJson.CanonicalBytesIdentifyValue`), and equal digest frames bind all four parts.
  An independent reader of RFC 8259 takes them as JSON that says what the value means
  (`JsonReader.CanonicalIsJson`).
- **The digits are ECMAScript's.** The choice between Rust's two formats yields the fewest
  digits, the closest of those, and the even one on a tie
  (`DigitChoice.ChoiceIsEcmaScript`, `JsonNumbers.ChosenIsEcmaScript`). How they are laid
  out follows from the value alone (`NumberForm.LayoutForm`), and every character is written
  as the shortest text that reads as it (`JsonText.EscapeIsCanonical`).
- **No path confusion.** On an accepted path decoding and splitting commute, and removing
  dot segments (section 5.2.4 of RFC 3986) changes nothing, before or after decoding.
  Decoding itself is stated against an independent relation (`OriginPath.DecodeExact`).
- **Read-back says what is wrong.** Reading an archive returns its manifest exactly when the
  archive is that manifest, and otherwise each error exactly for its fault
  (`BackupArchive.ReadArchive`).
- **Backups appear whole or not at all**, for every course of step failures, torn writes
  and acts of others between any two steps (`BackupPublication.CreateIn`). The files after a
  run are exactly what its steps and the others' acts made of the files before it.
- **Four loops are grammars or closures**: the PNG chunk loop, the licence scanner, the
  dependency worklist and the recovery detector, each against an independent definition.

How the environment appears: readers, writers, the filesystem and other processes are
values that say what happens at each step (`ReadEvent`, `Sink`, `Turn`, `Event`), so each
theorem is over every course of events. `u64` counters saturate or wrap as the source's do.
Doubles are exact numbers `m * 2^e` with their rounding intervals, and real arithmetic on
them is exact. Other processes never touch a hidden name that this process created; the
source relies on the same, by exclusive creation and owner-only permissions.

Where the code and its documentation differ, the code is followed:

- The data of a file must be exactly its declared length, says the documentation. `copy`
  counts with saturation, so at a declared size of 2^64 - 1 longer data is accepted too
  (`ArchiveGuard.LongerThanDeclared`); at every smaller size the promise holds
  (`ArchiveGuard.CopiesDeclaredLength`).
- The recovery moment is when both signals were first healthy again, says the
  documentation. `recovery` takes the first listed sample after the last unhealthy one, so
  on samples out of time order it can be late (`Recovery.OutOfOrderIsLate`);
  `Recovery.EarliestExactly` says for which samples it is not. Each of the program's two
  probes appends from one thread with a monotonic clock
  (`scripts/qualification.py`, lines 1101-1165), so the traces it makes are in time order
  and the moment is the earliest (`Recovery.DisruptedVerdict`).

## Model

| member | source | states |
|---|---|---|
| `ArchiveNames.AdmitNameExact` | gateway-config/src/archive.rs:554-626 | a name is accepted exactly when its path is portable (every segment portable and no device name) and within bounds; the earlier checks only choose the code, and the result is the name without a directory's trailing slash |
| `ArchiveNames.AdmittedPath` | gateway-config/src/archive.rs:552-599 | a path is what a name is admitted as exactly when it is portable, within bounds, and the name itself or a directory's name without its trailing slash |
| `ArchiveNames.PortableSegmentExact` | gateway-config/src/archive.rs:607-615 | a segment is portable exactly when it holds letters, digits and `._-` only, starts with a letter or digit and does not end in a dot |
| `ArchiveNames.DeviceNamesExactly` | gateway-config/src/archive.rs:617-626 | a segment is refused as a device exactly when it spells one of the 24 names in some letter case, alone or before a dot |
| `Bytes.FoldsAlike` | gateway-config/src/archive.rs:434-463 | two byte strings fold alike exactly when they are as long and every two bytes are equal or the capital and small form of one of the 26 letters |
| `ArchiveNames.NameCodes` | gateway-config/src/archive.rs:552-599 | each code is given exactly for its fault, of the whole name as Windows would read it first, then of the first faulty segment; too long comes before reserved, reserved before invalid |
| `ArchiveNames.NameRefusalIsTrue` | gateway-config/src/archive.rs:552-599 | a refused name has the fault its code says: absolute on Windows, a parent segment under either separator, a stream, too long, too deep, a device, or not portable |
| `ArchiveNames.SegmentsCodeNone` | gateway-config/src/archive.rs:587-597 | the per-segment codes are silent exactly when every segment is portable |
| `ArchiveNames.AdmittedNameMeansOnePath` | gateway-config/src/archive.rs:18-25 | POSIX resolution and Windows resolution (either slash, trailing dots and spaces dropped, drives, streams, devices) of an accepted name both give its segments, strictly beneath the root |
| `ArchiveNames.MeansItself` | gateway-config/src/archive.rs:18-25 | under either resolution a name means exactly its components when it is not rooted, has no stream on Windows, and no component is empty, a dot segment or, on Windows, a device or ending in a dot or a space |
| `ArchiveAdmission.HeaderCodeExact` | gateway-config/src/archive.rs:372-413 | the header checks in code order refuse exactly the headers that are not legal: kind, name, size bounds and stored-size ratio |
| `ArchiveAdmission.ExceedsRatioExact` | gateway-config/src/archive.rs:547-550 | the ratio is exceeded exactly above its bound, which for a 64-bit count is above the floor and above the exact product |
| `ArchiveAdmission.HeaderCodes` | gateway-config/src/archive.rs:372-413 | a header whose name is admitted gets each code exactly for its fault: links by their kind, the four special kinds, the unknown kind, a directory with data, a file too large, and only then one over its ratio bound |
| `ArchiveClaims.ConflictIsTrue` | gateway-config/src/archive.rs:434-499 | a conflict the table reports names an admitted entry that clashes with the new one in the way its code says |
| `ArchiveClaims.SilenceIsCompatible` | gateway-config/src/archive.rs:434-499 | when the table reports nothing, the new entry is compatible with every admitted one |
| `ArchiveClaims.ClaimedRepresents` | gateway-config/src/archive.rs:463-498 | claiming keeps the table exact: it holds the prefixes of the admitted paths, each with a true position, spelling and kind, also when a parent claim becomes a directory |
| `ArchiveClaims.ClashIsIncompatible` | gateway-config/src/archive.rs:26-29 | whatever a conflict code says about two entries makes them incompatible |
| `ArchiveAdmission.AdmissiblePermuted` | gateway-config/src/archive.rs:26-37 | whether headers are admissible together depends only on which there are, not on their order |
| `ArchiveAdmission.AdmissiblePrefix` | gateway-config/src/archive.rs:372-430 | what is admissible stays so without its last header, and that header is compatible with the rest |
| `ArchiveGuard.ScreenRefuses` | gateway-config/src/archive.rs:372-430 | a header refused before anything is claimed makes the sequence inadmissible, and the refusal's code and position are true |
| `ArchiveGuard.ConflictRefuses` | gateway-config/src/archive.rs:434-499 | a reported conflict makes the sequence inadmissible, and the earlier position it names is a clashing entry |
| `ArchiveGuard.SilenceAdmits` | gateway-config/src/archive.rs:372-499 | with the checks passed and no conflict, the longer sequence is admissible and the extended table represents it |
| `ArchiveGuard.ArchiveGuard.constructor` | gateway-config/src/archive.rs:316-325 | a new guard is valid, with nothing admitted, copied or refused |
| `ArchiveGuard.ArchiveGuard.ScanParents` | gateway-config/src/archive.rs:442-461 | the loop over a path's parents returns the outermost conflict, or exactly the parents no entry has named |
| `ArchiveGuard.ArchiveGuard.ClaimPath` | gateway-config/src/archive.rs:434-499 | `claim` reports the outermost conflict and changes nothing, or there is none at any prefix and the table becomes the claimed one |
| `ArchiveGuard.ArchiveGuard.AdmitEntry` | gateway-config/src/archive.rs:372-430 | an entry is admitted exactly when the admitted headers and it are admissible together; a refusal explains itself |
| `ArchiveGuard.ArchiveGuard.Admit` | gateway-config/src/archive.rs:327-340 | the same over whole runs: the first refusal is final and is returned again, and the guard's invariant is kept |
| `ArchiveGuard.AdmitAll` | gateway-config/src/archive.rs:327-370 | a whole header sequence is admitted exactly when it is admissible; otherwise all headers before the first inadmissible prefix are, and every later result is that refusal |
| `ArchiveStreams.Reader.Read` | gateway-config/src/archive.rs:515-523 | one read: up to the buffer's length, in order, counted, or an interruption, the end or an error |
| `ArchiveStreams.Sink.WriteAll` | gateway-config/src/archive.rs:535-536 | a write appends all its bytes, or a prefix of them and fails |
| `ArchiveGuard.ArchiveGuard.CopyChunk` | gateway-config/src/archive.rs:524-537 | one chunk is checked against the size and the ratio before it is written |
| `ArchiveGuard.ArchiveGuard.SendChunk` | gateway-config/src/archive.rs:524-537 | what was read is sent and counted, or the copy ends with a true reason and a prefix of the data sent |
| `ArchiveGuard.ArchiveGuard.CopyData` | gateway-config/src/archive.rs:501-544 | for every reader trace and writer, what reaches the writer is a prefix of the data no longer than declared, success means exactly the declared data, each failure says why, at most one byte past the size is consumed, and the metered ratio holds throughout |
| `ArchiveGuard.CopiesDeclaredLength` | gateway-config/src/archive.rs:31-34 | without metering, and with data that ends and a writer that takes it, a copy succeeds exactly when the saturated length is the declared size, so the data is exactly as long as declared unless the size is 2^64 - 1 and the data longer |
| `ArchiveGuard.LongerThanDeclared` | gateway-config/src/archive.rs:524-528 | the failing case: 2^64 bytes declared as 2^64 - 1 are copied in full and accepted |
| `ArchiveGuard.ArchiveGuard.Copy` | gateway-config/src/archive.rs:342-370 | the same with the refusal recorded under the entry's position; after a refusal nothing is read or written and it is returned again |
| `ArchiveGuard.ArchiveGuard.Finish` | gateway-config/src/archive.rs:358-363 | the summary's counts are those of the admitted headers; while each file is copied once, copied bytes plus those still outstanding are the declared total |
| `ArchiveGuard.RatioHolds` | gateway-config/src/archive.rs:547-550 | passing the ratio check bounds what is copied by the floor or the saturated ratio times the true number of compressed bytes, although the counter wraps |
| `Extraction.MeetsDirectory` | gateway-config/src/archive.rs:26-29 | whatever a compatible entry meets along its path is a directory it spells the same way |
| `Extraction.ReplayDescribes` | gateway-config/src/archive.rs:26-29 | replaying compatible entries never overwrites or enters a file and leaves exactly the entries and their parents |
| `Extraction.DescriptionIsUnique` | gateway-config/src/archive.rs:44-46 | only one tree holds exactly given entries |
| `Extraction.ExtractionIsSafe` | gateway-config/src/archive.rs:26-46 | an admissible archive, replayed in any order on an empty case-insensitive filesystem, succeeds and leaves the same tree |
| `Utf8.DecodeAfterEncode` | gateway-config/src/canonical_json.rs:273-294 | decoding the UTF-8 form of a character gives it back, whatever follows |
| `Utf8.EncodeAfterDecode` | gateway-config/src/connections.rs:99-106 | what decodes as UTF-8 is exactly the encoding of the decoded character |
| `Utf8.DecodesWellFormed` | gateway-config/src/connections.rs:99-106 | a character is read exactly where the bytes start with a row of Table 3-7 of the Unicode Standard, of that width |
| `Utf8.EncodeKeepsOrder` | gateway-config/src/canonical_json.rs:273-294 | the UTF-8 forms of two characters are in the order of their code points |
| `Utf16Order.EncodeUtf16Injective` | gateway-config/src/canonical_json.rs:126-132 | names with equal UTF-16 forms are equal |
| `Utf16Order.DifferenceDecides` | gateway-config/src/canonical_json.rs:126-132 | the first difference decides the order, swapped against code points exactly for a supplementary character and one from U+E000 to U+FFFF |
| `Utf16Order.BeforeIsStrictTotalOrder` | gateway-config/src/canonical_json.rs:126-132 | comparing by UTF-16 units is a strict total order on names |
| `Utf16Order.DiffersFromCodePointOrder` | gateway-config/src/canonical_json.rs:126-132 | it differs from code point order exactly when the first difference is such a pair |
| `JsonText.UnescapeAfterEscape` | gateway-config/src/canonical_json.rs:273-294 | a reader of section 7 of RFC 8259, all its escapes and surrogate pairs included, gets each escaped character back, and where it ends |
| `JsonText.ShortEscapes` | gateway-config/src/canonical_json.rs:273-294 | the two-character escapes that reader knows are the eight of section 7 of RFC 8259, and no other |
| `JsonText.EscapeIsShortest` | gateway-config/src/canonical_json.rs:273-294 | nothing shorter than what is written for a character reads as it |
| `JsonText.EscapeIsCanonical` | gateway-config/src/canonical_json.rs:273-294 | what is written for a character is exactly the text that reads as it, is the shortest to do so and has no capital hexadecimal digit |
| `JsonText.UnescapedIsUtf8` | gateway-config/src/canonical_json.rs:273-294 | a character is written as its UTF-8 form exactly when it is no control, quote or backslash |
| `JsonText.ReadsQuoted` | gateway-config/src/canonical_json.rs:270-294 | that reader gets the whole text back, and stops at its closing quote |
| `JsonText.QuotedUnique` | gateway-config/src/canonical_json.rs:273-294 | the quoted form is uniquely decodable in any context |
| `JsonText.WriteString` | gateway-config/src/canonical_json.rs:273-294 | the writer appends the quoted form: each character as `JsonText.EscapeIsCanonical` says, between quotes |
| `Doubles.RoundingUnique` | gateway-config/src/canonical_json.rs:221 | no number parses to two different doubles: rounding intervals, ties to even, do not meet |
| `Doubles.DoublesHaveBits` | gateway-config/src/canonical_json.rs:221 | the doubles are those with eleven bits of exponent and 52 of fraction, the largest exponent excluded |
| `Doubles.RoundingIsNearest` | gateway-config/src/canonical_json.rs:221 | a number in a double's interval is no closer to any other double, and equally close to one only if the double's significand is even |
| `Doubles.RoundingExactly` | gateway-config/src/canonical_json.rs:221 | in the range of doubles, a number is in a double's interval exactly when that is the nearest double, of two equally near the even one, the other being odd |
| `DigitChoice.ChoiceIsEcmaScript` | gateway-config/src/canonical_json.rs:182-225 | taking the ties-to-even decimal if it identifies the number, and otherwise the shortest form, gives the fewest digits, the closest of those, and the even one on a tie |
| `DigitChoice.EcmaScriptIsTrimmed` | gateway-config/src/canonical_json.rs:232-239 | the chosen digits have no trailing zero, so trimming never drops one |
| `DigitChoice.EcmaScriptIsUnique` | gateway-config/src/canonical_json.rs:182-198 | the rule leaves no choice: a number has one such decimal |
| `DigitChoice.NearestExists` | gateway-config/src/canonical_json.rs:217-220 | every positive number has a nearest decimal of any given length, ties to even |
| `DigitChoice.ShortestExists` | gateway-config/src/canonical_json.rs:212-216 | every positive number inside an interval has a shortest identifying decimal |
| `NumberLayout.LayoutReads` | gateway-config/src/canonical_json.rs:240-267 | every layout branch reads back as exactly the digits times the power of ten |
| `NumberForm.LayoutForm` | gateway-config/src/canonical_json.rs:240-267 | on the value read back: there is an `e` exactly below a millionth or from ten to the 21 on; with it, one nonzero digit, a fraction that does not end in zero, the sign and an exponent without leading zeros; without it, the value's whole part in decimal and a fraction that does not end in zero |
| `NumberLayout.LayoutInjective` | gateway-config/src/canonical_json.rs:240-267 | different digits or exponents have different texts |
| `NumberLayout.LayoutBytes` | gateway-config/src/canonical_json.rs:240-267 | the text starts with a digit and holds only number bytes |
| `JsonNumbers.FaithfulFormatterExists` | gateway-config/src/canonical_json.rs:212-220 | formats as Rust specifies them exist for every double |
| `JsonNumbers.ChosenIsEcmaScript` | gateway-config/src/canonical_json.rs:199-239 | the digits written for a double are ECMAScript's, and trimming leaves them alone |
| `JsonNumbers.FormattersAgree` | gateway-config/src/canonical_json.rs:199-268 | formatters that keep their promises give every number the same text |
| `JsonNumbers.MagnitudeReads` | gateway-config/src/canonical_json.rs:199-268 | a double's text reads back as a number that parses to that double |
| `JsonNumbers.MagnitudeForm` | gateway-config/src/canonical_json.rs:199-268 | the text of every double has the form its value calls for |
| `JsonNumbers.NumberHasForm` | gateway-config/src/canonical_json.rs:148-268 | the text of every accepted number is `0` for zero, and otherwise a minus exactly for the negative ones and the form the value calls for |
| `JsonNumbers.SafeIsFiftyThreeBits` | gateway-config/src/canonical_json.rs:31 | the greatest safe integer is two to the 53, less one |
| `JsonNumbers.NumberReads` | gateway-config/src/canonical_json.rs:148-180 | the text of an accepted number reads back as its value's double, with its sign |
| `JsonNumbers.NumbersByValue` | gateway-config/src/canonical_json.rs:148-180 | two accepted numbers, integers or doubles, have the same text exactly when they have the same value |
| `JsonNumbers.AcceptedExactly` | gateway-config/src/canonical_json.rs:148-180 | the numbers that have a text are exactly the finite ones within the I-JSON safe range |
| `JsonNumbers.IntegralText` | gateway-config/src/canonical_json.rs:149-154 | a double that is a safe integer is written as that integer's digits |
| `JsonNumbers.PushLayout` | gateway-config/src/canonical_json.rs:244-267 | the pushes of the four branches append exactly the layout, whose form `NumberForm.LayoutForm` states |
| `JsonNumbers.EcmaScriptNumber` | gateway-config/src/canonical_json.rs:199-268 | the method computes the sign and the text whose digits, value and form the lemmas above state |
| `JsonNumbers.WriteNumber` | gateway-config/src/canonical_json.rs:148-180 | a number is refused exactly when it is not finite or outside the I-JSON safe range, and otherwise exactly its text is appended |
| `CanonicalJson.SortingUnique` | gateway-config/src/canonical_json.rs:131-132 | a set of names has one increasing listing, so iteration order cannot show |
| `CanonicalJson.SortNames` | gateway-config/src/canonical_json.rs:131-132 | sorting any listing of the names gives that one |
| `CanonicalJson.EncodedWord` | gateway-config/src/canonical_json.rs:109-115 | null, true, false and strings are those words, and the escaped characters between quotes |
| `CanonicalJson.EncodedArray` | gateway-config/src/canonical_json.rs:116-125 | an array is its items' texts between brackets, a comma between any two and nothing else |
| `CanonicalJson.EncodedObject` | gateway-config/src/canonical_json.rs:126-143 | an object is its members between braces, for any increasing listing of its names, each the quoted name, a colon and the value's text, a comma between any two and nothing else |
| `CanonicalJson.ItemsUnique` | gateway-config/src/canonical_json.rs:116-125 | equal array bodies in context have as many items, with equal meanings |
| `CanonicalJson.MembersUnique` | gateway-config/src/canonical_json.rs:133-142 | equal object bodies in context have the same names, with equal meanings |
| `CanonicalJson.ValueUnique` | gateway-config/src/canonical_json.rs:109-146 | the nested encoding is uniquely decodable: equal bytes before a delimiter mean equal values and equal rests |
| `CanonicalJson.MeaningDetermines` | gateway-config/src/canonical_json.rs:109-146 | values of equal meaning have equal bytes |
| `CanonicalJson.FormattersEncodeAlike` | gateway-config/src/canonical_json.rs:5-15 | a value's canonical bytes do not depend on the platform's formatter |
| `CanonicalJson.CanonicalBytesIdentifyValue` | gateway-config/src/canonical_json.rs:53-58 | canonical bytes, on whatever platforms, are equal exactly when the values mean the same |
| `CanonicalJson.EncodableExactly` | gateway-config/src/canonical_json.rs:33-39 | a value has an encoding exactly when every number in it is finite and safe |
| `JsonReader.NumberTextIsJson` | gateway-config/src/canonical_json.rs:148-180 | a number's text is in the grammar of section 6 of RFC 8259 |
| `JsonReader.ReadsBack` | gateway-config/src/canonical_json.rs:109-146 | a reader of RFC 8259 reads an encoding in context, stops exactly at its end, and gets the value's meaning, each number as a decimal that parses to its double |
| `JsonReader.EscapesAreUnits` | gateway-config/src/canonical_json.rs:126-132 | the hexadecimal escapes read as a character are its UTF-16 units, one or a surrogate pair |
| `JsonReader.CanonicalIsJson` | gateway-config/src/canonical_json.rs:53-58 | canonical bytes are a JSON text, and it says what the value means |
| `CanonicalJson.WriteArray` | gateway-config/src/canonical_json.rs:116-125 | the array branch appends the encoding, or fails exactly when there is none |
| `CanonicalJson.WriteObject` | gateway-config/src/canonical_json.rs:126-143 | the object branch does, for any iteration order of the map |
| `CanonicalJson.WriteMembers` | gateway-config/src/canonical_json.rs:134-141 | the loop over the sorted members appends exactly their encodings, or fails exactly when one has none |
| `CanonicalJson.WriteValue` | gateway-config/src/canonical_json.rs:109-146 | the recursive writer appends exactly the encoding, or fails exactly when a number has none |
| `CanonicalJson.CanonicalJsonBytes` | gateway-config/src/canonical_json.rs:54-58 | the result is the encoding, and an error exactly when some number is not finite or not safe |
| `DigestFrame.FrameUnique` | gateway-config/src/canonical_json.rs:94-107 | equal frames have equal kind, media type, schema version and payload |
| `DigestFrame.FrameBytes` | gateway-config/src/canonical_json.rs:94-107 | a frame is, byte for byte, `GGDIGEST` and a zero byte, then kind, media type, schema version and payload in this order, each after its length in eight bytes |
| `Bytes.BigEndianAt` | gateway-config/src/canonical_json.rs:104 | each byte of such a length counts its power of 256 |
| `DigestFrame.SemanticIsNeverSource` | gateway-config/src/canonical_json.rs:60-92 | a semantic frame is never a source frame |
| `DigestFrame.SemanticFrameBindsValue` | gateway-config/src/canonical_json.rs:60-80 | semantic frames, on whatever platforms, are equal exactly when media type, schema version and the value's meaning are |
| `DigestFrame.FramedDigest` | gateway-config/src/canonical_json.rs:94-107 | what the loop feeds the hasher is exactly the frame |
| `OriginPath.HasInvalidPercentEscape` | gateway-config/src/connections.rs:127-144 | the index loop finds an invalid escape exactly when some percent sign lacks two hexadecimal digits |
| `OriginPath.DecodeExact` | gateway-config/src/connections.rs:99-100 | decoding gives exactly what is spelled: an escape, a percent sign and the two digits of a byte with the high half first in either letter case, is that byte, and any other byte is itself |
| `OriginPath.DecodeEncode` | gateway-config/src/connections.rs:99-100 | decoding undoes writing every byte as an escape, in capitals or not |
| `OriginPath.DecodeConcat` | gateway-config/src/connections.rs:99-100 | decoding goes by parts wherever no escape is cut |
| `OriginPath.RefusedBytes` | gateway-config/src/connections.rs:86-88 | the bytes refused are those up to the space, delete, and `?`, `#` and the backslash; a percent sign is right exactly where an escape starts |
| `OriginPath.NormalizeOriginRelativePath` | gateway-config/src/connections.rs:77-125 | the method computes the function whose results and errors the lemmas around it state |
| `OriginPath.NormalizeExact` | gateway-config/src/connections.rs:73-125 | a path is accepted exactly when it has the shape and every segment decodes to plain UTF-8; the result is in normal form and is the path or the path less its trailing slash |
| `OriginPath.NormalizeErrors` | gateway-config/src/connections.rs:81-118 | each error is given exactly for its fault: the shape, else the first segment that is not clean being no UTF-8 once decoded, or being a text that could be confused |
| `OriginPath.NormalizeIdempotent` | gateway-config/src/connections.rs:73-125 | normalising the result changes nothing |
| `OriginPath.DecodeSplitCommute` | gateway-config/src/connections.rs:99-118 | where no segment decodes to a slash, decode-then-split is split-then-decode |
| `OriginPath.RemoveDotsIdentity` | gateway-config/src/connections.rs:107-117 | section 5.2.4 of RFC 3986 leaves a rooted path without dot segments as it is |
| `OriginPath.RemoveDotsExact` | gateway-config/src/connections.rs:107-117 | it leaves a rooted path alone exactly when that has no dot segment |
| `OriginPath.NoPathConfusion` | gateway-config/src/connections.rs:73-125 | on an accepted path decoding and splitting commute, no decoded segment is a dot segment or holds a slash, a backslash or a NUL, and dot-segment removal is the identity before and after decoding; what decoding is, `OriginPath.DecodeExact` says |
| `BackupGroups.GroupStores` | gateway-config/src/backup.rs:741-764 | refused exactly when the ledger shares its file with any other store; otherwise one group for each file in the order first seen, holding all its stores in order and named after the first |
| `BackupGroups.GroupingIsPartition` | gateway-config/src/backup.rs:739-764 | every store is in a group, and two are in the same one exactly when they share a file |
| `BackupGroups.LedgerIsFirst` | gateway-config/src/backup.rs:748-754 | comparing with a group's first store misses no shared ledger |
| `BackupArchive.ReadManifest` | gateway-config/src/backup.rs:931-943 | the manifest is read exactly when the first entry is the manifest file, small enough, readable and parsed, and otherwise each error is given exactly for what is wrong with that entry |
| `BackupArchive.StageEntry` | gateway-config/src/backup.rs:944-976 | one entry is staged exactly when it is the listed file, copied and hashed as recorded; otherwise each error is given exactly for its fault: the archive ends, another entry comes, the container refuses it, no store is in it, it cannot be staged, or its digest differs |
| `BackupArchive.StoreOfExact` | gateway-config/src/backup/manifest.rs:278-284 | the store an entry is of is the first, in their fixed order, recorded with its name |
| `BackupArchive.StageEntries` | gateway-config/src/backup.rs:944-989 | the loop succeeds exactly when the entries are those listed, in order, and then the end; otherwise each error is given exactly for the first fault |
| `BackupArchive.VerifyStaged` | gateway-config/src/backup.rs:992-1022 | the second pass succeeds exactly when every staged file is of a store and the rollback database described and the ledger agrees; each entry problem, and that a file or the ledger cannot be inspected, is reported exactly when it is the first thing wrong |
| `BackupArchive.ReadArchive` | gateway-config/src/backup.rs:929-1023 | a manifest is returned exactly when the archive is that manifest, every listed entry in order and nothing else; a manifest that cannot be read, an entry that is not as listed, an end the container refuses, a staged file or ledger with a problem or that cannot be inspected each has its error, and the error its fault |
| `BackupArchive.FaultIsUnique` | gateway-config/src/backup.rs:944-989 | an archive has one sequence fault at most |
| `BackupArchive.ArchiveHasNoFault` | gateway-config/src/backup.rs:944-989 | an archive that is its manifest has none |
| `BackupWorld.World.Do` | gateway-config/src/backup.rs:373-606 | one step: others act on any name but this process's own, then the call does to the files exactly what its kind and its fate say, and the trace, the names owned, what stopped the run, what a torn write left and the failed removals follow from the steps |
| `BackupPublication.CreatePrivate` | gateway-config/src/backup.rs:545-566 | a hidden name is created exclusively, within sixteen attempts; the output and the names owned are untouched |
| `BackupPublication.LinkOutput` | gateway-config/src/backup.rs:572-581 | linking adds an absent output with the hidden file's bytes, or changes nothing, because it failed or the output was there |
| `BackupPublication.Write` | gateway-config/src/backup.rs:466-468 | a write that is not torn leaves exactly the bytes given |
| `BackupPublication.Assemble` | gateway-config/src/backup.rs:389-471 | leaves either the hidden archive alone or nothing, but for names that could not be removed, and never touches the output |
| `BackupPublication.ReadBack` | gateway-config/src/backup.rs:472-477 | what is returned is the reading of the bytes the hidden file has and still has |
| `BackupPublication.Publish` | gateway-config/src/backup.rs:572-606 | the output appears by one link that replaces nothing, or is left alone; the hidden name goes unless its removal fails |
| `BackupPublication.VerifyAndPublish` | gateway-config/src/backup.rs:472-482 | publishes only bytes that read back as the drafted manifest |
| `BackupTrace.EveryStepRespects` | gateway-config/src/backup.rs:526-606 | in every run every step leaves what is not this process's own as it is, and an output that exists too |
| `BackupTrace.OutputSince` | gateway-config/src/backup.rs:572-606 | only a link by this process or an act of others changes the output |
| `BackupTrace.SeenOutputWasThere` | gateway-config/src/backup.rs:380-384 | a run that stops at an existing output met one that was there at the start or that others put there |
| `BackupTrace.HiddenNamesRestored` | gateway-config/src/backup.rs:594-606 | a hidden name that others leave alone is as it was at the start once this process no longer owns it, and was absent then if it does |
| `BackupTrace.StopIsAStep` | gateway-config/src/backup.rs:373-483 | what stops a run is a step that did not work, or met the output or no free name |
| `BackupTrace.FailedRemovalsAre` | gateway-config/src/backup.rs:594-606 | the names counted as left behind are those with a removal step that failed |
| `BackupPublication.Create` | gateway-config/src/backup.rs:373-483 | for every course of failures, torn writes and acts of others: a step that stops the run decides the error, and otherwise the request and the bytes the write of the archive left do, which are the draft's unless the write was torn; an error leaves the output alone; success means one step linked those bytes, which read back as the manifest, to an absent output; the names still owned are exactly those whose removal failed; and when every step works and others keep to their own names, the outcome is exactly the stated one and nothing but the output is left |
| `BackupPublication.CreateIn` | gateway-config/src/backup.rs:373-483 | the same of the directory itself: nothing of anyone else's changes and no existing output is altered; the output, if others leave it alone, holds the archive after success and is untouched after an error; a hidden name, if others leave it alone, is as before unless removing it failed; and an output is met only if it was there or others put it there |
| `LicenseExpression.Scan` | scripts/ggctl_release.py:354-366 | the one-counter loop accepts exactly the token strings of the grammar: operands joined by operators, an operand an identifier or a parenthesised expression |
| `LicenseExpression.LicenseIdExact` | scripts/ggctl_release.py:73-73 | an identifier starts with a letter or digit, holds those and `.+-`, and is no operator |
| `LicenseExpression.ExpressionScans` | scripts/ggctl_release.py:354-366 | an expression takes the scanner from expecting an operand to not, at any depth, whatever follows |
| `LicenseExpression.ScannerIsGrammar` | scripts/ggctl_release.py:354-366 | the scanner's acceptance is the grammar's, in both directions |
| `LicenseExpression.ExpressionUnique` | scripts/ggctl_release.py:354-366 | an accepted token string has one parse |
| `DependencyClosure.Close` | scripts/ggctl_release.py:386-400 | the worklist ends, with exactly the packages reachable from the root by non-dev dependencies and exactly their labelled edges, or with a reachable package that has no node |
| `DependencyClosure.VisitKeepsPartial` | scripts/ggctl_release.py:389-400 | visiting one package keeps the worklist's invariant |
| `DependencyClosure.FinishedIsClosure` | scripts/ggctl_release.py:387-401 | an empty worklist means the closure |
| `DependencyClosure.SortedSet` | scripts/ggctl_release.py:401 | a set's elements in strictly increasing order |
| `DependencyClosure.EdgeOrderByColumns` | scripts/ggctl_release.py:401 | edges are in the order of their three columns, the first that differs deciding |
| `DependencyClosure.RootsAre` | scripts/ggctl_release.py:382-383 | the roots are the workspace members named ggctl, each as often as listed |
| `DependencyClosure.LiveKinds` | scripts/ggctl_release.py:391-393 | the dependencies followed are those with a normal or a build kind |
| `DependencyClosure.DependencyGraph` | scripts/ggctl_release.py:376-401 | the closure of the one workspace package named ggctl, packages and edges each in increasing order, and the error for each way the metadata fails it, a missing package being the first in that order |
| `PngHeader.CountIsPositions` | scripts/check-test-evidence.py:112-113 | the column and line counts are the numbers of positions of a pass inside the image |
| `PngHeader.SampleFormat` | scripts/check-test-evidence.py:101-106 | the depths and channels allowed are those the bits of the colour type mean: palette, colour, alpha |
| `PngHeader.HeaderExact` | scripts/check-test-evidence.py:99-118 | a header is accepted exactly when its thirteen bytes, field by field, are two sizes from 1 to 2^31 - 1, a depth of the colour type, two zero methods and an interlacing of 0 or 1, and its rows decode to at most 128 MiB |
| `PngHeader.PixelOnOnePass` | scripts/check-test-evidence.py:107-109 | every pixel lies on exactly one pass, of Adam7's seven or of the single one |
| `PngHeader.PassesHoldEveryPixel` | scripts/check-test-evidence.py:107-115 | the passes' pixel counts add up to width times height |
| `PngHeader.RowsHoldEveryPixel` | scripts/check-test-evidence.py:99-118 | an accepted header's rows are those of the nonempty passes in order, each of as many lines as the pass has and of the fewest bytes that hold its columns, and each pixel lies on exactly one of those passes |
| `PngHeader.PngRows` | scripts/check-test-evidence.py:99-118 | the loop computes those rows, and refuses exactly the headers that are not valid or decode to more than the limit |
| `PngChunks.ParseAfterSerialize` | scripts/check-test-evidence.py:130-141 | parsing a serialised chunk gives it back, whatever follows |
| `PngChunks.SerializeAfterParse` | scripts/check-test-evidence.py:130-141 | what parses as a chunk is its serialisation |
| `PngChunks.KindLetters` | scripts/check-test-evidence.py:95-136 | the signature and the four kinds known are the letters they spell; a kind is four letters with a capital third, ancillary when its first is small |
| `PngChunks.PaletteEntries` | scripts/check-test-evidence.py:149-152 | a legal palette has 1 to 256 entries of three bytes with a colour type that has colour, and no more than the image's indices reach |
| `PngChunks.DecideExact` | scripts/check-test-evidence.py:129-168 | deciding on bytes is running the state machine on the chunks that tile them |
| `PngChunks.RunIsGrammar` | scripts/check-test-evidence.py:142-168 | the flags accept exactly one leading header, an optional legal palette before the data, one run of data, ancillary chunks elsewhere and a final empty end |
| `PngChunks.ValidateChunks` | scripts/check-test-evidence.py:121-168 | the loop reaches decompression exactly on a signature followed by chunks of that grammar that tile the file, with that header and that data |
| `PngChunks.DecideFrom` | scripts/check-test-evidence.py:129-168 | the loop over offsets decides as the state machine does on the bytes from there on |
| `PngChunks.ReadChunk` | scripts/check-test-evidence.py:130-141 | the offset arithmetic reads the chunk that starts at the offset |
| `PngChunks.TakeChunk` | scripts/check-test-evidence.py:142-165 | one turn of the branches is one step of the state machine |
| `Recovery.RecoveredExactly` | scripts/qualification.py:1205-1233 | there is a verdict exactly when the expected disruption was seen, the quiet window has lasted and it holds three samples of each signal |
| `Recovery.QuietVerdict` | scripts/qualification.py:1216-1228 | without an unhealthy sample the verdict is the fault itself, and none was expected |
| `Recovery.DisruptedVerdict` | scripts/qualification.py:1205-1233 | a verdict names the first unhealthy sample, comes after the last, has its quiet window, and both signals were healthy again by then; over samples in time order no earlier moment will do |
| `Recovery.EarliestExactly` | scripts/qualification.py:1229-1232 | the verdict is the earliest moment exactly when the signal seen again last lists first the earliest of its samples after the last unhealthy one |
| `Recovery.OutOfOrderIsLate` | scripts/qualification.py:1229-1232 | samples out of time order for which both signals were healthy again at 5 and the verdict says 9 |
| `Recovery.ClusterAfterVerdict` | scripts/qualification.py:1180-1182 | after a disruption, every later cluster sample has all replicas ready and only accepted digests |
| `Recovery.BadReadings` | scripts/qualification.py:1180-1182 | a cluster reading is unhealthy exactly when its sample failed, has another number of pods or of ready ones, or shows a digest that is not among the accepted ones where any are named |
| `Recovery.VerdictIsStable` | scripts/qualification.py:1205-1233 | healthy samples that arrive later leave a verdict as it was |
| `Recovery.LongestOutage` | scripts/qualification.py:1193-1202 | the longest time, rounded to a millisecond, from the first unhealthy sample of a run to the healthy one that ends it, or to the last sample; zero without one |

## Left out

- SHA-256, CRC-32, zlib and hexadecimal encoding: parameters; the results are about what is hashed.
- Rust's float formatting and parsing: specified by rounding intervals and digit counts (`JsonNumbers.Faithful`), not their algorithms; the text split at `e` and `.` is taken as digits and an exponent.
- serde_json's number storage: a number is an unsigned, signed or double value, as `as_u64`, `as_i64` and `as_f64` present it.
- ArchiveGuard.ArchiveGuard.Finish: the file and directory counts are unbounded, because only the entry count is compared with a limit.
- Times of samples are real numbers; the rounding of floating-point differences of them is not modelled.
- LicenseExpression.Scan: starts from tokens; the spelling of `/` as OR and the splitting at spaces and parentheses are not modelled.
- PngChunks.ValidateChunks: ends where decompression starts; the decompressed length and the filter bytes are not modelled.
- BackupArchive.ReadArchive: starts once the container is open; opening the file, the container format and the manifest's own rules are not modelled, and the manifest's store records are a map from store to entry.
- BackupPublication.Create: reading back is a function of the archive's bytes, which stands for opening the container and `BackupArchive.ReadArchive`; snapshots, the manifest's making and its size bound are one step that yields a draft or an error; the contents of the working and staging directories, file modes and directory flushing are not modelled.
- The inventory of the state directory and the restore of a backup.
- `gateway/src/canonical_json.rs`, the rest of `connections.rs`, the bundle, ledger, capability and authentication modules: orchestration, or checks of one branch.
- The other scripts, the administration interface and the workers: input and output.
