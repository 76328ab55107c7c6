# OpenCred: the hard core, verified

This project models the parts of OpenCred whose correctness is an argument and not a glance: the streaming CSV reader
of the batch pipeline, the two base58btc codecs and the DER conversion, issuing and processing of SD-JWT credentials,
the canonical JSON printer behind the schema hash, the signer document cache, the circuit breaker, the background
revocation driver, the did:web key set, and the two-phase Data Integrity proof. `dafny verify dfyconfig.toml` checks
all of it.

Code that works by changing state keeps that form: in-place loops over arrays (`Base58`), loops over a rolling buffer
(`CsvScan`, `CsvHeader`), classes whose fields are the source's fields or closure variables (`CsvParse.StreamingParser`,
`SdJwtWalk.Walker`, `DidCache.Cache`, `CircuitBreaker.CircuitBreaker`, `RevocationWorker.Worker`). Each such method is
proved against a function, and the theorems are about that function. Asynchronous code is split at each `await`, and
the theorems about it hold for every interleaving of the parts.

| Files | What they hold |
|---|---|
| `CsvText`, `CsvScan`, `CsvChunks`, `CsvCaps`, `CsvHeader`, `CsvFields`, `CsvParse`, `CsvRows` | declarative reading of CSV, scanner, chunk independence, caps, header, fields, both pipelines, tables through both |
| `Positional`, `Base58`, `Multibase`, `Der`, `DidKey` | positional numbers, both base58 implementations, ECDSA signature forms, did:key |
| `CanonicalJson`, `CanonicalParser`, `CanonicalForm` | the printer, the parser that inverts it, and the canonical text defined on its own |
| `SdJwt`, `SdJwtProcess`, `SdJwtWalk`, `SdJwtIssue`, `SdJwtRoundTrip`, `SdJwtCredential`, `SdJwtElements`, `SdJwtReading`, `SdJwtText` | meaning of disclosures, outcome, the running walk, issuing, the law between both, what is shown of claims, of array elements and at any depth, the text form |
| `DidCache`, `CircuitBreaker`, `RevocationWorker` | stateful services |
| `Decimal`, `DidWeb`, `DidWebRuns`, `DidWebDocuments` | key documents, their life, and their members |
| `DataIntegrity`, `ProofContents` | prepare, complete, verify, the batch path, and the members of configs and proofs |
| `Json`, `Strings`, `Wrappers` | shared vocabulary |

## Where the code and its description differ

- The scanner's comment says that examined characters are never examined again
  (packages/batch-core/src/streaming-csv-parser.ts:226-230 and 270-273). The code resumes at position 0 of the surviving
  tail with the quote flag carried over (lines 274-276), and the header loop rescans its buffer in the same way (line 424).
  The model follows the code; `CsvChunks.ScanReadsExactly` and `CsvHeader.StreamReadsExactly` say exactly which chunkings
  are read right, `CsvChunks.MisreadExample` and `CsvHeader.MisreadHeader` show two that are not, and `CsvChunks.ResumeAtEndReadsAll` proves the
  described behaviour correct for every chunking.
- The streaming parser is described as matching the buffered one. Its header is the first record even when that is
  blank, and its records may hold quoted newlines; `CsvParse.StreamIsLinesExactly` gives the exact condition for agreement, `CsvParse.StreamIsNotLines` two texts that fail it.
- The server reports a taken index only when it is a safe integer, and accepts any non-negative one
  (apps/server/src/routes/keys.ts:367 and 634). Rotating twice at an index above 2^53 - 1 puts one id into the document
  twice and can bring a revoked key back: `DidWebRuns.RevokedReturns`, with the exact conditions in
  `DidWebRuns.ReentersExactly` and `DidWebRuns.DistinctExactlyWithoutRepeats`.
- The two base58 readers differ on strings of `1`s only: `Multibase.ReadersAgreeExactly`.
- `normalizeSignature` decides between raw and DER by length alone, so a DER form of 64 or 96 bytes is taken for raw:
  `Der.NormalizeRecoversExactly`, `Der.NormalizeMisses`. The same reader makes an all-zero signature unverifiable: `DataIntegrity.PreparedThenVerified`.

## Model

| member | source | states |
|---|---|---|
| `CsvScan.DrainBuffer` | packages/batch-core/src/streaming-csv-parser.ts:236-268 | the inner loop, one character at a time over a rolling buffer, yields the records, final start position and quote flag of the specification `Loop`, cap errors included |
| `CsvScan.TakeChunk` | packages/batch-core/src/streaming-csv-parser.ts:233-292 | taking in one chunk moves buffer, flag and resume position exactly as `Take` says; the resume position after a completed record is 0 |
| `CsvScan.ScanRecords` | packages/batch-core/src/streaming-csv-parser.ts:220-302 | the records yielded before the iterator ends or throws, for any chunks and cap, are those of `Scan` |
| `CsvScan.LoopMatches` | packages/batch-core/src/streaming-csv-parser.ts:236-268 | the character loop agrees with the declarative reading: pieces up to each unquoted newline, blank ones dropped, `\r` before the newline removed |
| `CsvText.CutConcat` | packages/batch-core/src/streaming-csv-parser.ts:220-302 | reading `a + b` is reading `a` and then reading `b` from the unfinished record of `a` |
| `CsvText.ChompExactly` | packages/batch-core/src/streaming-csv-parser.ts:250-254 | one carriage return before the newline is dropped and nothing else |
| `CsvText.TrimExactly` | packages/batch-core/src/streaming-csv-parser.ts:538-541 | trimming takes white space off both ends, and all of it |
| `CsvText.BlankExactly` | packages/batch-core/src/streaming-csv-parser.ts:255-255 | a record counts as empty exactly when all its characters are white space |
| `CsvChunks.ScanReadsExactly` | packages/batch-core/src/streaming-csv-parser.ts:220-302 | chunk independence with its exact condition: the scanner yields the records of the whole text if and only if no boundary hurts, that is, cuts an unfinished quoted record after a completed one with a newline still to come |
| `CsvChunks.UnquotedBoundariesRead` | packages/batch-core/src/streaming-csv-parser.ts:220-302 | no boundary inside quotes is enough for that |
| `CsvChunks.OneChunkReads` | packages/batch-core/src/streaming-csv-parser.ts:220-302 | the whole text as one chunk is read as the quote-aware split at unquoted newlines, blank records dropped |
| `CsvChunks.ResumeAtEndReadsAll` | packages/batch-core/src/streaming-csv-parser.ts:226-230 | the variant that resumes at the end of the surviving tail, as the comment intends, reads every chunking of every text correctly, without any condition |
| `CsvChunks.MisreadExample` | packages/batch-core/src/streaming-csv-parser.ts:270-279 | a concrete body and chunking that the code as written misreads |
| `CsvCaps.CapExact` | packages/batch-core/src/streaming-csv-parser.ts:255-301 | with a cap, every yielded record is within it, the yielded records are a prefix of the uncapped run, and the run throws exactly when a record or a text kept between chunks is too long |
| `CsvCaps.BufferBounded` | packages/batch-core/src/streaming-csv-parser.ts:281-292 | the buffer never exceeds the cap by more than the newest chunk |
| `CsvCaps.ScanNamesExcess` | packages/batch-core/src/streaming-csv-parser.ts:250-289 | a size error names the cap and a length above it |
| `CsvHeader.TakeHeaderRecord` | packages/batch-core/src/streaming-csv-parser.ts:395-472 | the header loop returns the header and tail of the specification, or its size error |
| `CsvHeader.HeaderExact` | packages/batch-core/src/streaming-csv-parser.ts:406-471 | the header and the tail are those of the whole text exactly when the pass that stops starts outside quotes |
| `CsvHeader.FollowAll` | packages/batch-core/src/streaming-csv-parser.ts:406-471 | where the header loop stops and what it leaves, said on text and boundaries: the flag of a pass is the parity of the earlier boundaries that lie inside quotes |
| `CsvHeader.StreamReadsExactly` | packages/batch-core/src/streaming-csv-parser.ts:395-472 | header and records together are those of the whole text if and only if the chunking is safe, a condition on the text and its boundaries |
| `CsvHeader.MisreadHeader` | packages/batch-core/src/streaming-csv-parser.ts:424-463 | a concrete quoted header that a chunk boundary makes the code misread |
| `CsvHeader.HeaderCapExact` | packages/batch-core/src/streaming-csv-parser.ts:406-471 | a capped header run gives header and tail of the uncapped run or throws, and throws exactly when the header or a text kept between chunks is too long |
| `CsvHeader.HeaderBufferBounded` | packages/batch-core/src/streaming-csv-parser.ts:465-470 | the buffer of the header loop never exceeds the cap by more than the newest chunk |
| `CsvHeader.UnquotedBoundariesSafe` | packages/batch-core/src/streaming-csv-parser.ts:395-472 | a chunking without a boundary inside quotes is safe |
| `CsvHeader.SafeChunkingsAgree` | packages/batch-core/src/streaming-csv-parser.ts:486-576 | two safe chunkings of one text give the same header and the same records |
| `CsvFields.ParseRecord` | packages/batch-core/src/streaming-csv-parser.ts:336-378 | the record parser computes the quote-aware fields |
| `CsvFields.ParseCsvLine` | packages/batch-core/src/csv-parser.ts:89-131 | the line parser of the buffered path computes the same fields |
| `CsvFields.ParsePrintedRow` | packages/batch-core/src/streaming-csv-parser.ts:336-378 | parsing a written row gives its fields back, whichever of them are in quotes: a field without quotes, delimiters and newlines may be written as it is, any other is quoted with its quotes doubled (section 2 of RFC 4180) |
| `CsvFields.SplitsAtDelimiter` | packages/batch-core/src/streaming-csv-parser.ts:368-372 | on any record, a delimiter behind an even number of quotes parts the fields before it from those after it |
| `CsvFields.UnclosedQuote` | packages/batch-core/src/streaming-csv-parser.ts:346-366 | a quote that is never closed takes the rest of the record into its field, delimiters included |
| `CsvFields.PrintScanParse` | packages/batch-core/src/streaming-csv-parser.ts:220-378 | write any table, with `\n` or `\r\n` after its rows, cut the text into chunks of which no boundary hurts (one chunk included), scan, parse: the same rows come back, embedded newlines, quotes and delimiters included |
| `CsvParse.ApplyMapping` | packages/batch-core/src/csv-parser.ts:172-189 | renamed columns first, then every column that passes through, on all inputs |
| `CsvParse.MappedExactly` | packages/batch-core/src/csv-parser.ts:172-189 | the fields of the subject are exactly the targets of columns that the row has and the columns that pass through |
| `CsvParse.MappedValue` | packages/batch-core/src/csv-parser.ts:178-181 | a target has the value of the last column mapped to it |
| `CsvParse.PassedValue` | packages/batch-core/src/csv-parser.ts:183-188 | a column that passes through keeps its value |
| `CsvParse.ValueLostExactly` | packages/batch-core/src/csv-parser.ts:178-188 | with distinct targets the value of a non-empty column is lost exactly when the column is itself a target and no entry maps it |
| `CsvParse.BuildRow` | packages/batch-core/src/streaming-csv-parser.ts:539-556 | one row: the loop keys the fields by header, maps, validates and numbers them as the function `Row` does, which `CsvRows.StreamedTable` reads off the written table |
| `CsvParse.ParseCsv` | packages/batch-core/src/csv-parser.ts:202-241 | the buffered parser: headers and rows of the non-blank lines, and counts that are those of the verdicts |
| `CsvParse.IterateRows` | packages/batch-core/src/streaming-csv-parser.ts:523-570 | the rows delivered before the iterator ends, reaches the row cap or throws |
| `CsvParse.StreamingParser.EnsureHeader` | packages/batch-core/src/streaming-csv-parser.ts:498-521 | `headers()` gives the same answer on every call and caches it with the tail |
| `CsvParse.StreamingParser.IterateAll` | packages/batch-core/src/streaming-csv-parser.ts:523-576 | `rows()` gives all rows the first time and an error the second |
| `CsvParse.CappedRowsArePrefix` | packages/batch-core/src/streaming-csv-parser.ts:523-570 | under any caps, each set or not, the rows are a prefix, at most `maxRows` long, of the uncapped rows |
| `CsvParse.RowLimitExact` | packages/batch-core/src/streaming-csv-parser.ts:556-566 | a limit of `n` rows delivers the first `n`, and an error exactly when there are more |
| `CsvParse.ErrorsNameTheLimit` | packages/batch-core/src/streaming-csv-parser.ts:560-566 | every error that ends a capped run names the limit, and after how many rows or at which excess length it came |
| `CsvParse.EvenLinesArePlain` | packages/batch-core/src/csv-parser.ts:141-142 | the lines that a newline ends all hold an even number of quotes exactly when no newline is quoted |
| `CsvParse.StreamIsLinesExactly` | packages/batch-core/src/csv-parser.ts:136-155 | streamed header and records are the non-blank buffered lines if and only if no newline is quoted and the first line is not blank |
| `CsvParse.StreamIsNotLines` | packages/batch-core/src/csv-parser.ts:136-155 | two texts on which they differ: a quoted newline, and a blank first line |
| `CsvParse.StreamingRefinesBuffered` | packages/batch-core/src/streaming-csv-parser.ts:486-576 | on a safe chunking of such a text, both parsers return the same headers and the same rows |
| `CsvParse.SafeChunksExactly` | packages/batch-core/src/streaming-csv-parser.ts:486-576 | for such a text, streaming equals the buffered lines exactly on the safe chunkings |
| `CsvRows.RawValuesExactly` | packages/batch-core/src/streaming-csv-parser.ts:542-545 | the columns of a row are exactly the headers; each has the field at the last position of its header, or is empty when the row is too short |
| `CsvRows.StreamedTable` | packages/batch-core/src/streaming-csv-parser.ts:486-576 | a table of any cells, written in any style and cut into chunks in any safe way, is read back: the header, and row `i` with number `i`, each written cell (trimmed when values are) under its header, the mapped subject and the validator's verdict on it |
| `CsvRows.BufferedTable` | packages/batch-core/src/csv-parser.ts:202-241 | a table whose texts hold no newline is read back by the buffered parser in the same way, and the counts are the numbers of rows with each verdict |
| `Base58.AlphabetIs` | packages/did/src/multibase.ts:1-6 | the six runs of consecutive characters that give a digit its character are the 58-character alphabet |
| `Base58.MultiplyAdd` | packages/did/src/multibase.ts:28-33 | the inner carry loop over the array: no value is lost, every cell stays in range, and the carry returned is below the factor |
| `Base58.CarryBound` | packages/did/src/multibase.ts:28-33 | the running carry never reaches the factor |
| `Base58.NoCarry` | packages/did/src/multibase.ts:28-33 | a number below the capacity of the buffer leaves carry 0 |
| `Base58.DecodeCells` | packages/did/src/multibase.ts:19-34 | the outer loop fills the buffer with the number the string writes, or stops at the first foreign character |
| `Base58.EncodeCells` | packages/did/src/multibase.ts:57-67 | the mirror loop of encoding |
| `Base58.DecodeBase58btc` | packages/did/src/multibase.ts:8-44 | decoding with any buffer that fits computes `Decode`, or the error for the first foreign character |
| `Base58.EncodeBase58btc` | packages/did/src/multibase.ts:46-80 | encoding with any buffer that fits computes `Encode` |
| `Base58.DecodeAfterEncode` | packages/did/src/multibase.ts:8-80 | decode(encode(b)) = b for every byte sequence, leading zeros included |
| `Base58.EncodeAfterDecode` | packages/did/src/multibase.ts:8-80 | encode(decode(s)) = s for every alphabet string, leading `1`s included |
| `Base58.EncodedExactly` | packages/did/src/multibase.ts:46-80 | the string writes the number of the bytes in base 58, behind one `1` for each leading zero byte and no other |
| `Base58.KnownAnswer` | packages/did/src/multibase.ts:8-80 | the bytes 0, 1, 0 and the string `15R` are each other's codes |
| `Base58.DecodeInjective` | packages/did/src/multibase.ts:8-44 | two strings that decode to the same bytes are the same string |
| `Multibase.MultibaseEncode` | packages/crypto/src/data-integrity.ts:394-419 | the big-integer writer produces `z` and exactly what the array writer produces |
| `Multibase.MultibaseDecode` | packages/crypto/src/data-integrity.ts:424-462 | the big-integer reader computes its specification, prefix and alphabet errors included |
| `Multibase.BytesOfNumber` | packages/crypto/src/data-integrity.ts:441-446 | the detour over an even number of hexadecimal digits gives the base-256 digits of the number |
| `Multibase.ReadersCompared` | packages/crypto/src/data-integrity.ts:424-462 | what the big-integer reader returns in terms of the array reader, on every alphabet string |
| `Multibase.ReadersAgreeExactly` | packages/crypto/src/data-integrity.ts:424-462 | the two readers have the same outcome on a string exactly when it has a character other than `1` |
| `Multibase.AllOnesGainAByte` | packages/crypto/src/data-integrity.ts:440-461 | on `k` characters `1` the big-integer reader returns `k + 1` zero bytes |
| `Multibase.MultibaseRoundTrip` | packages/crypto/src/data-integrity.ts:394-462 | writing and reading restores the bytes exactly when they are not all zero |
| `Der.DerToRaw` | packages/crypto/src/data-integrity.ts:471-507 | the offset-driven reader computes its specification, every error branch included |
| `Der.RawToDer` | packages/crypto/src/data-integrity.ts:513-554 | the offset-driven writer computes its specification |
| `Der.RawToDerShape` | packages/crypto/src/data-integrity.ts:513-554 | what it writes has short-form lengths and minimal non-negative integers (section 8.3.2 of X.690) with the values of the two halves |
| `Der.DerIntegerMinimal` | packages/crypto/src/data-integrity.ts:521-539 | each half is written as the minimal integer of its value |
| `Der.MinimalUnique` | packages/crypto/src/data-integrity.ts:521-539 | a number has only one minimal integer |
| `Der.DerToRawFaithful` | packages/crypto/src/data-integrity.ts:471-507 | both integers are carried over exactly when each fits a component |
| `Der.DerAcceptedExactly` | packages/crypto/src/data-integrity.ts:471-507 | of any bytes, exactly those are read that have the tags of a SEQUENCE and two INTEGERs in their places, a first integer that fits a component and a second that fits two; when the second fits one, both are carried over |
| `Der.DerRoundTrip` | packages/crypto/src/data-integrity.ts:471-554 | raw to DER and back is the identity on 64 and 96 bytes |
| `Der.RawRoundTrip` | packages/crypto/src/data-integrity.ts:471-554 | DER to raw and back is the identity on minimal encodings of integers that fit |
| `Der.NormalizeRecoversExactly` | packages/signing/src/pkcs11-utils.ts:126-159 | normalizing the DER form of a raw signature recovers it exactly when the length tells the form: not 64 or 96, and above 80 for 96-byte signatures |
| `Der.NormalizeMisses` | packages/signing/src/pkcs11-utils.ts:143-150 | an input it is not recovered from: 96 zero bytes, whose DER form has eight |
| `Der.NormalizeKeeps` | packages/signing/src/pkcs11-utils.ts:126-142 | RSA signatures of any length and EC signatures of 64 or 96 bytes are left alone |
| `Der.NormalizedIsRaw` | packages/signing/src/pkcs11-utils.ts:143-159 | any other EC signature must be DER and becomes a raw one, of 96 bytes when it is longer than 80 and else of 64, which is left alone afterwards; both errors exactly when |
| `DidKey.DerivedResolves` | packages/did/src/did-key.ts:94-205 | a derived did:key resolves exactly when the key is well formed, and to the document of that key |
| `DidKey.DerivedExactly` | packages/did/src/did-key.ts:94-114 | the identifier spelled out from the registered multicodec codes, and the key lengths that are accepted |
| `DidKey.ResolvedDocument` | packages/did/src/did-key.ts:117-205 | the resolved document names one method by its identifier, which is in all four relationships |
| `DidKey.DerivedKeyIsRecovered` | packages/verification/src/key-utils.ts:19-58 | the verifier, through the other base58 reader, recovers curve and key bytes from every derivable identifier |
| `DidKey.AcceptedExactlyDerived` | packages/did/src/did-key.ts:117-205 | the resolver accepts exactly the identifiers that some well-formed key derives |
| `DidKey.DidInjective` | packages/did/src/did-key.ts:94-114 | two different keys never share an identifier |
| `DidKey.ReadersAgreeOnAccepted` | packages/verification/src/key-utils.ts:19-58 | whatever the resolver accepts, the verifier builds the SPKI of that very key |
| `DidKey.SpkiIsDer` | packages/verification/src/key-utils.ts:68-136 | the SPKI is well-formed DER: its lengths count what follows and the key ends it |
| `DidKey.SpkiExactly` | packages/verification/src/key-utils.ts:68-136 | the SPKI is a SEQUENCE of the algorithm identifier and a BIT STRING with the key; the object identifiers are 1.2.840.10045.2.1 with 1.2.840.10045.3.1.7 or 1.3.132.0.34, and 1.3.101.112, encoded by section 8.19 of X.690 |
| `CanonicalJson.PushParts` | packages/shared/src/hash.ts:72-79 | the loop over sorted keys pushes one part for each defined member and stops at the first error |
| `CanonicalParser.CanonSucceedsExactly` | packages/shared/src/hash.ts:31-83 | the printer succeeds exactly on values without NaN, infinities and unsupported types |
| `CanonicalParser.CanonInverted` | packages/shared/src/hash.ts:31-83 | a parser inverts the printer: reading the canonical text followed by anything that cannot continue a number gives the meaning of the value and the rest |
| `CanonicalParser.SameMeaningSameText` | packages/shared/src/hash.ts:31-83 | values that mean the same are printed alike, whatever their key order |
| `CanonicalParser.CanonicalExactly` | packages/shared/src/hash.ts:31-83 | two values have the same canonical text if and only if they mean the same, that is, agree up to the order of keys and undefined members, with undefined elements read as null and -0 as 0 |
| `CanonicalForm.BeforeExactly` | packages/shared/src/hash.ts:72-72 | the sort order of keys, by index: a prefix comes first, and otherwise the key whose code unit is smaller at the first difference |
| `CanonicalForm.CanonIsText` | packages/shared/src/hash.ts:31-83 | what the printer writes is the canonical text, which is defined without sorting: words and escapes letter by letter, and in an object exactly the members that are not undefined, their keys ascending by code units |
| `CanonicalForm.CanonExactly` | packages/shared/src/hash.ts:31-83 | that text is the only one: the printer writes `t` if and only if `t` is the canonical text of the value |
| `CanonicalForm.ErrorHasCause` | packages/shared/src/hash.ts:39-45 | an error names something that is in the value: an unsupported type, or a NaN or infinity |
| `SdJwt.SettledSolves` | packages/verification/src/sd-jwt-vc.ts:148-199 | the settled book answers every place of every disclosure with an answer whose own places are answered |
| `SdJwt.OneSolution` | packages/verification/src/sd-jwt-vc.ts:148-199 | there is exactly one such book, so the rank that witnesses acyclicity cannot influence the outcome |
| `SdJwt.FillAgrees` | packages/verification/src/sd-jwt-vc.ts:148-199 | filling a value looks at no disclosure that the value does not ask for in a place of the matching kind |
| `SdJwtWalk.Walker.Walk` | packages/verification/src/sd-jwt-vc.ts:148-199 | the recursive walk returns the value filled from the settled book, adds exactly the digests used to the set, and throws exactly when some `_sd` it meets is not iterable |
| `SdJwtWalk.Walker.Answer` | packages/verification/src/sd-jwt-vc.ts:164-167 | a disclosure that is looked up is marked as used and its value walked |
| `SdJwtWalk.Walker.WalkItems` | packages/verification/src/sd-jwt-vc.ts:149-174 | array items: markers answered by element disclosures are replaced, unanswered ones dropped, other items walked |
| `SdJwtWalk.Walker.WalkMembers` | packages/verification/src/sd-jwt-vc.ts:176-183 | object members in any order, `_sd` and `_sd_alg` stripped |
| `SdJwtWalk.Walker.WalkList` | packages/verification/src/sd-jwt-vc.ts:185-195 | `_sd` digests in order: only claim disclosures count, and the last of a name wins |
| `SdJwtWalk.BuildBook` | packages/verification/src/sd-jwt-vc.ts:138-142 | the digest map, later disclosures of one digest replacing earlier ones |
| `SdJwtWalk.ProcessDisclosures` | packages/verification/src/sd-jwt-vc.ts:131-212 | the whole call: algorithm and decoding errors, walk, and the count of unreferenced disclosures |
| `SdJwtProcess.UsedExactlyReached` | packages/verification/src/sd-jwt-vc.ts:144-199 | the set of used digests is exactly what chains of mentions in places of the matching kind lead to |
| `SdJwtProcess.AcceptedExactlyWhenAllReached` | packages/verification/src/sd-jwt-vc.ts:203-209 | processing succeeds exactly when every disclosure is reached and everything reached can be walked (section 7.1 of draft-ietf-oauth-selective-disclosure-jwt, as the code cites) |
| `SdJwtProcess.OutcomeIsTheSolution` | packages/verification/src/sd-jwt-vc.ts:131-212 | what comes out is the payload filled from the one book that answers itself |
| `SdJwtProcess.NothingReservedLeft` | packages/verification/src/sd-jwt-vc.ts:180-183 | no `_sd` or `_sd_alg` key is left at any level when no disclosure is so named |
| `SdJwtProcess.BookHolds` | packages/verification/src/sd-jwt-vc.ts:137-142 | with distinct digests the map holds exactly the disclosures given, and building it fails exactly when one does not decode |
| `SdJwtProcess.OrderDoesNotMatter` | packages/verification/src/sd-jwt-vc.ts:131-212 | result and error do not depend on the order or repetition of the disclosures |
| `SdJwtIssue.SubjectClaims` | packages/crypto/src/sd-jwt-vc-signing.ts:67-73 | the loop that separates the claims from the subject id |
| `SdJwtIssue.BuildPayload` | packages/crypto/src/sd-jwt-vc-signing.ts:34-98 | the loop that splits claims into plain ones and disclosures with digests, and seals the payload |
| `SdJwtIssue.UnmarkedStays` | packages/verification/src/sd-jwt-vc.ts:148-199 | a value without reserved keys and markers asks for nothing and comes out as it went in |
| `SdJwtRoundTrip.PresentingIssued` | packages/crypto/src/sd-jwt-vc-signing.ts:34-98 | presenting any issued disclosures, in any order, with any permutation of the digests, gives the plain claims plus exactly the claims presented |
| `SdJwtRoundTrip.OnlyIssuedAccepted` | packages/verification/src/sd-jwt-vc.ts:203-209 | whatever is accepted was issued: a foreign disclosure is rejected even if disclosures ask for it |
| `SdJwtRoundTrip.IssueThenPresent` | packages/verification/src/sd-jwt-vc.ts:131-212 | for a whole credential: a presentation is accepted if and only if all its disclosures were issued, and then shows the plain claims and the presented ones |
| `SdJwtRoundTrip.LawApplies` | packages/crypto/src/sd-jwt-vc-signing.ts:34-98 | every fair credential has an issuer and a verifier for which the hypotheses of that law hold, for all presentations |
| `SdJwtCredential.PresentedCredential` | packages/verification/src/sd-jwt-vc.ts:131-212 | the law for a whole credential, said of the credential, names and what the parser returns: a presentation is accepted if and only if all its disclosures were issued, and then every claim that is not selective or was presented is shown with its own value, the registered claims with theirs unless a shown claim has the name, and nothing else |
| `SdJwtCredential.IssuedDisclosures` | packages/crypto/src/sd-jwt-vc-signing.ts:71-90 | one disclosure for each selective claim, in the order of the subject: the encoded salt, name and value |
| `SdJwtCredential.IssuedDigests` | packages/crypto/src/sd-jwt-vc-signing.ts:83-95 | the payload lists exactly the digests of the disclosures, sorted, under `_sd`, and names the hash under `_sd_alg`, or has neither |
| `SdJwtCredential.LawExample` | packages/verification/src/sd-jwt-vc.ts:131-212 | an example with an id, a plain and a selective claim: everything shown, member by member, without and with the disclosure |
| `SdJwtElements.PresentingElements` | packages/verification/src/sd-jwt-vc.ts:148-176 | the element law: for any arrays whose items are open or markers of disclosures that the parser reads as salt and value, any presented part in any order succeeds, and each array shows its open items and the values presented, in array order |
| `SdJwtReading.ProcessedReads` | packages/verification/src/sd-jwt-vc.ts:131-212 | whatever processing shows, at any depth, is the payload with every marker of a presented element replaced by its value, every other marker gone, the listed claims set in list order and reserved keys removed, and so is every disclosed value; said with what the parser returns |
| `SdJwtReading.RefusedExactly` | packages/verification/src/sd-jwt-vc.ts:131-143 | presentations are refused for the hash, or for a disclosure that is not an array of two or three parts, exactly when |
| `SdJwtReading.UnreferencedExactly` | packages/verification/src/sd-jwt-vc.ts:203-209 | the error for unreferenced disclosures counts exactly those that no chain of matching places reaches |
| `SdJwtReading.DigestsExactly` | packages/verification/src/sd-jwt-vc.ts:186-187 | what iterating over an `_sd` member yields: the strings of an array in order, the characters of a string, nothing when it is null |
| `SdJwtReading.BrokenExactly` | packages/verification/src/sd-jwt-vc.ts:186-187 | the walk throws exactly when some object it walks has a number, a boolean or an object under `_sd` |
| `SdJwtText.Parse` | packages/verification/src/sd-jwt-vc.ts:66-90 | splitting on `~`: issuer JWT, disclosures, and a last part with three dot-separated parts as key-binding JWT |
| `SdJwtText.ParseOfAssembled` | packages/crypto/src/sd-jwt-vc-signing.ts:104-109 | parsing an assembled credential gives back its parts; a last part behind it is a key-binding JWT if it has three dot-separated parts, and else one more disclosure |
| `SdJwtText.AssembledExactly` | packages/crypto/src/sd-jwt-vc-signing.ts:104-109 | the JWT and every disclosure are followed by one `~` |
| `DidCache.Cache.Lookup` | packages/signing/src/signer-did-cache.ts:126-137 | the part of a call before its await: a hit moves its entry to the end of the insertion order |
| `DidCache.Cache.Store` | packages/signing/src/signer-did-cache.ts:144-160 | the part after it: evict from the front until there is room, then set |
| `DidCache.Cache.Get` | packages/signing/src/signer-did-cache.ts:125-161 | a call that nothing interrupts, failing resolves included |
| `DidCache.SequentialOrder` | packages/signing/src/signer-did-cache.ts:125-161 | after any sequential calls the Map order is exactly the last `maxSize` distinct fingerprints served, by recency, with the right documents |
| `DidCache.AnsweredAsUncached` | packages/signing/src/signer-did-cache.ts:125-161 | the next call is answered as if there were no cache |
| `DidCache.AnyInterleaving` | packages/signing/src/signer-did-cache.ts:125-161 | however calls interleave at the await, the size stays within the cap, keys stay distinct and documents right |
| `DidCache.AnyAnswer` | packages/signing/src/signer-did-cache.ts:125-161 | every answer under any interleaving is that of an uncached resolve |
| `DidCache.StoresMostRecentExactly` | packages/signing/src/signer-did-cache.ts:144-160 | a call that stores after an interruption leaves the keys by recency exactly when its key is not among those kept after making room, or is the last of them and there was room |
| `DidCache.DidOfExactly` | packages/signing/src/signer-did-cache.ts:141-141 | the DID resolved is what precedes the first `#` of the key id, or all of it |
| `CircuitBreaker.CircuitBreaker.Enter` | packages/dedi-client/src/circuit-breaker.ts:40-48 | admission: rejected calls change nothing, and the first call after the timeout half-opens the breaker |
| `CircuitBreaker.CircuitBreaker.Settle` | packages/dedi-client/src/circuit-breaker.ts:50-68 | settling: success, client errors that do not count, 401 and 403 when configured, everything else |
| `CircuitBreaker.CircuitBreaker.OnSuccess` | packages/dedi-client/src/circuit-breaker.ts:71-77 | a success closes the breaker and clears the count |
| `CircuitBreaker.CircuitBreaker.OnFailure` | packages/dedi-client/src/circuit-breaker.ts:79-89 | a counted failure is timed, and opens a half-open breaker or one at the threshold |
| `CircuitBreaker.CountsSinceSuccess` | packages/dedi-client/src/circuit-breaker.ts:71-81 | under every interleaving `failureCount` is the number of counted failures since the last success |
| `CircuitBreaker.ClosedExactlyBelow` | packages/dedi-client/src/circuit-breaker.ts:79-89 | the state is CLOSED exactly when that number is below the threshold, where a threshold below one works like one |
| `CircuitBreaker.RemembersLastFailure` | packages/dedi-client/src/circuit-breaker.ts:41-45 | the breaker remembers the time of the last counted failure, and is half open exactly when a call came after the timeout since |
| `CircuitBreaker.TurnedAwayExactly` | packages/dedi-client/src/circuit-breaker.ts:40-48 | a call is turned away if and only if the threshold is reached, nobody probed since the last counted failure, and that failure is less than the timeout ago |
| `CircuitBreaker.ClosedExactly` | packages/dedi-client/src/circuit-breaker.ts:50-89 | said with statuses: the count is the number of harmful ends (no response, 500 and above, 401 and 403 when configured) behind which there is no success, and the breaker is closed exactly when it is 0 or below the threshold |
| `CircuitBreaker.ClientErrorsNeverOpen` | packages/dedi-client/src/circuit-breaker.ts:55-68 | client errors below 500 alone never open the breaker, 401 and 403 included unless they are configured to count |
| `RevocationWorker.KeysDistinguish` | apps/server/src/revocation-worker.ts:27-27 | keys of colon-free hashes coincide exactly for the same hash in the same namespace, none being the empty one |
| `RevocationWorker.SharedExactlyByColons` | apps/server/src/revocation-worker.ts:27-27 | a key is shared with another hash or namespace if and only if a colon occurs in the hash or in the namespace |
| `RevocationWorker.RunLoop` | apps/server/src/revocation-worker.ts:69-95 | the attempt loop with given answers stops at the first confirming attempt, with exact counts of publishes and sleeps, and otherwise makes every attempt |
| `RevocationWorker.AttemptOf` | apps/server/src/revocation-worker.ts:69-95 | what one attempt does to the end of a loop |
| `RevocationWorker.NextKeepsValid` | apps/server/src/revocation-worker.ts:60-105 | no step of any loop breaks the invariant of the set and the counts |
| `RevocationWorker.EveryRunIsValid` | apps/server/src/revocation-worker.ts:52-105 | under every interleaving the in-flight set is the keys of the running loops, at most one loop runs per key, and each makes at most `maxAttempts` publishes and one sleep less |
| `RevocationWorker.LoopsGetCloser` | apps/server/src/revocation-worker.ts:69-104 | each event of a loop brings it closer to its end, which releases its key; no other event touches it |
| `RevocationWorker.Worker.DriveToLive` | apps/server/src/revocation-worker.ts:60-69 | a call for a key in flight does nothing; otherwise the key is taken, and released at once if there are no attempts |
| `RevocationWorker.Worker.OnQuery` | apps/server/src/revocation-worker.ts:72-80 | the loop after its query: done when revoked, else publishing, also after a failed query |
| `RevocationWorker.Worker.OnPublish` | apps/server/src/revocation-worker.ts:82-95 | the loop after its publish: done when already there or out of attempts, else sleeping |
| `RevocationWorker.Worker.OnWake` | apps/server/src/revocation-worker.ts:69-95 | the loop after its delay: the next attempt |
| `RevocationWorker.Worker.Finally` | apps/server/src/revocation-worker.ts:101-103 | the key is released |
| `DidWeb.CollectRelationshipIds` | packages/did/src/did-web.ts:300-311 | the loop over the five relationships collects every id mentioned |
| `DidWeb.ImportDocument` | packages/did/src/did-web.ts:333-381 | import of any JSON: errors, keys in order, indices and revoked flags |
| `DidWeb.GeneratedIds` | packages/did/src/did-web.ts:203-230 | the relationships that import reads, taken together, mention exactly the active ids of a generated document |
| `DidWeb.NothingPrivate` | packages/did/src/did-web.ts:161-181 | no private JWK member is published or imported, and every other member is kept |
| `DidWeb.ImportInvertsGenerate` | packages/did/src/did-web.ts:203-381 | import inverts generate on ids, order, public members and indices always, and on revoked flags if and only if no revoked id or its bare fragment is an active id and no active id is empty |
| `DidWebDocuments.GeneratedExactly` | packages/did/src/did-web.ts:203-230 | a document is generated if and only if some key is not revoked; then `authentication`, `assertionMethod`, `capabilityInvocation` and `capabilityDelegation` each list the ids of the keys not revoked, in key order, and each method has its id, type, controller and public members |
| `DidWebDocuments.ImportReads` | packages/did/src/did-web.ts:282-381 | import of any JSON: exactly what is refused; otherwise the keys of the methods that have an id and a key, in order, each revoked exactly when none of the five relationships lists its id or bare fragment, as a string or as an embedded method |
| `DidWebDocuments.KeyIndexExactly` | packages/did/src/did-web.ts:94-132 | key ids are `did#key-<n>`, and an id has an index exactly when its fragment is `key-` and the digits of a safe integer |
| `DidWebRuns.IndexReadsBack` | packages/did/src/did-web.ts:94-132 | the index of a `did#key-<n>` id is read back exactly when it is a safe integer |
| `DidWebRuns.MethodIdsDiffer` | packages/did/src/did-web.ts:94-101 | different indices give different ids |
| `DidWebRuns.UsedExactlyTaken` | packages/did/src/did-web.ts:368-380 | an index is reported as used exactly when a key has it and it is a safe integer |
| `DidWebRuns.NextIndexIsFree` | packages/did/src/did-web.ts:373-378 | the index after the highest is free unless the highest safe integer is taken, and then it is not a safe integer |
| `DidWebRuns.RotationAppends` | apps/server/src/routes/keys.ts:634-658 | a rotation at any index carries every key forward and appends the new active one, or is refused at an index reported as used |
| `DidWebRuns.RevocationMarks` | apps/server/src/routes/keys.ts:781-798 | a revocation marks one key and keeps all, and is not carried out when no active key would be left |
| `DidWebRuns.StepRefines` | apps/server/src/routes/keys.ts:634-798 | an operation on the bare document is the operation on the key set, and keeps ids distinct exactly unless it rotates at an unsafe index that a key has |
| `DidWebRuns.ReentersExactly` | apps/server/src/routes/keys.ts:634-798 | one operation brings a revoked key back into a relationship exactly when it rotates at that key's index and the index is above the safe integers |
| `DidWebRuns.SafeExactlyWhenItStaysOut` | apps/server/src/routes/keys.ts:634-798 | an index is a safe integer exactly when rotate, revoke, rotate at it does not bring the revoked id back |
| `DidWebRuns.RevokedReturns` | apps/server/src/routes/keys.ts:634-658 | an input: with key 2^53 revoked, a rotation at 2^53 is accepted and the revoked id is back, twice in the document |
| `DidWebRuns.RunsContinue` | apps/server/src/routes/keys.ts:634-798 | a run may be stopped and taken up again from the document alone |
| `DidWebRuns.RunRefines` | apps/server/src/routes/keys.ts:634-798 | any run in which no unsafe index is used twice is the run on the key set |
| `DidWebRuns.DistinctExactlyWithoutRepeats` | apps/server/src/routes/keys.ts:634-798 | the ids of the document stay distinct throughout a run if and only if no unsafe index is used twice |
| `DidWebRuns.RevokedExactlyUnmentioned` | packages/did/src/did-web.ts:300-366 | a key is revoked exactly when no relationship mentions it |
| `DidWebRuns.RevokedStaysOut` | apps/server/src/routes/keys.ts:634-798 | over any such run no key is lost or moved and indices stay distinct, and a key revoked after any part of the run is in no relationship after the rest |
| `DidWebDocuments.OnlyOwnDocument` | apps/server/src/routes/keys.ts:634-658 | a rotation is only carried out on the document of the same DID |
| `DidWebDocuments.StepExactly` | apps/server/src/routes/keys.ts:634-798 | what one operation does, key by key: a new active key at the end, or exactly the keys of one id revoked, or nothing |
| `DidWebDocuments.AuthorizedThroughout` | apps/server/src/routes/keys.ts:634-798 | over any run in which no unsafe index is used twice, the document describes the keys of the run, an active key is in all four relationships and a revoked one in none, and a key revoked after any part of the run stays so |
| `DataIntegrity.Complete` | packages/crypto/src/data-integrity.ts:609-637 | the completed credential carries the config and the signature in multibase; wrong lengths are refused |
| `DataIntegrity.ConfigIsRebuilt` | packages/crypto/src/data-integrity.ts:758-774 | the proof config that verification rebuilds from the credential is the one that was prepared, with domain and challenge when they are not empty |
| `DataIntegrity.SignatureReadsAs` | packages/crypto/src/data-integrity.ts:394-462 | a signature of zero bytes only reads back one byte longer, any other as it was |
| `DataIntegrity.BytesAreRebuilt` | packages/crypto/src/data-integrity.ts:758-781 | the bytes checked are those of the config that was prepared and of the credential without any proof |
| `DataIntegrity.VerifiesAsExpected` | packages/crypto/src/data-integrity.ts:710-807 | the answer of verification for any completed credential, whatever was in it before |
| `DataIntegrity.PreparedThenVerified` | packages/crypto/src/data-integrity.ts:569-807 | a credential without a proof verifies exactly when the signature is not all zero and the key accepts it for the very bytes that were prepared |
| `DataIntegrity.SignedIsVerified` | packages/crypto/src/eddsa-data-integrity.ts:37-214 | for P-256, P-384 and Ed25519: a signature that its key accepts is verified exactly when it is not all zero |
| `DataIntegrity.ConfigsDifferInContext` | packages/crypto/src/data-integrity.ts:175-195 | two configs with the same options coincide exactly for the same `@context` |
| `DataIntegrity.BatchIsPlain` | packages/crypto/src/data-integrity.ts:304-383 | the precomputed batch path gives a row exactly the bytes and config of preparing it alone when contexts agree, and the row's own config only then |
| `ProofContents.PreparedExactly` | packages/crypto/src/data-integrity.ts:569-600 | preparing, for each algorithm: each option under its member name in the config and no other member, the hash of the canonical config before that of the document, SHA-384 for P-384 only; errors exactly when |
| `ProofContents.PrecomputedExactly` | packages/crypto/src/data-integrity.ts:304-360 | the same for the batch template; RSA is refused |
| `ProofContents.CompletedExactly` | packages/crypto/src/data-integrity.ts:609-637 | completing adds the proof with the options and the encoded signature under their names, and changes nothing else; lengths other than 64, and 96 for ECDSA, are refused |
| `ProofContents.VerifiedExactly` | packages/crypto/src/data-integrity.ts:710-807 | exactly which credentials verify, whoever made them: proof type and suite by name, a readable value of an accepted length, and a key that accepts it for the claimed config and the credential without its proof |

## Left out

- HTTP routes, configuration, tracing, metrics, command line, user interfaces, network, DNS and key stores: wiring or calls without visible algorithm. The registry calls around rotation and revocation are among them.
- JSON-LD canonicalization, hashing, signature schemes, JSON parsing and base64url are parameters; so are clocks, random salts, the host's sort in the issuer, document resolution, row validation, and the answers of the revocation registry.
- Base58.DecodeBase58btc: takes the buffer size as any value with 256^size >= 58^length; that the floating-point logarithm of the source gives such a size is not proved.
- Base58.EncodeBase58btc: takes the buffer size as any value with 58^size >= 256^length, for the same reason.
- CsvParse.StreamingParser.EnsureHeader: after a size error the model reads the same chunks again, where the source would go on with what is left of its input.
- CsvParse.ParseCsv: the delimiter is given; its detection from the first lines, and the decoding of UTF-8 chunks, are not part of this model.
- CsvParse.ApplyMapping: names that every JavaScript object inherits, such as `constructor` or `__proto__`, are treated like any other name.
- CanonicalParser.CanonicalExactly: a finite number is given by the text that the host prints for it; that different numbers have different texts is not proved here. Sparse arrays, cyclic values and the SHA-256 of the text are not modelled.
- SdJwtWalk.ProcessDisclosures: asks that disclosures do not ask for each other in a circle, which digests that come from a hash give; the source would recurse without end. Claims named `__proto__` are treated like any other claim, and iterating over a string `_sd` goes by UTF-16 code units.
- SdJwtRoundTrip.IssueThenPresent: asks for distinct digests, as a hash without collisions gives them, and that the verifier hashes as the issuer does and reads the issuer's own disclosures as they were written.
- SdJwtCredential.PresentedCredential: asks for the same.
- SdJwtReading.ProcessedReads: asks for distinct digests, and is about presentations that are accepted.
- SdJwtText.Parse: the size limit on the whole text, and the verification of the issuer and key-binding JWTs, are not part of this model.
- SdJwtIssue.BuildPayload: the issuer id and the dates as seconds are given; their extraction from the credential is not modelled.
- DidCache.SequentialOrder: the environment variable for the cap, and clearing the cache, are not modelled; the cap is any number from 1 up.
- CircuitBreaker.ClosedExactlyBelow: thresholds are whole numbers; log messages are not modelled.
- DidWebRuns.IndexReadsBack: an index above the largest safe integer is printed with all its digits, where the host shortens the text of large numbers; either text is read back as no index. Fetching documents, DID to URL conversion and the record of key statuses are not part of this model.
- DidWebDocuments.ImportReads: says nothing of the members of a key that is an array, which the host spreads into numbered members; `DidWeb.KeyOf` models that.
- DataIntegrity.VerifiesAsExpected: a missing member of the rebuilt config stands for one whose value is undefined; errors that the source rethrows as programming bugs are one outcome, `Thrown`.
- JSON objects are maps, so member order is not modelled where the code does not depend on it; a `char` stands for a UTF-16 code unit.
- Updates in place of byte arrays in the DER reader and writer are modelled up to the returned sequence; PDF and QR rendering, schema registry, credential builder, error sanitizing and result shaping would only add easy members.
