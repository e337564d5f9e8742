# Proofs about the PingServer parsers, containers and header generator

The project models four parts of PingServer and proves what they promise. Where the source changes state in place,
the model does, too: classes with the source's fields, arrays that are written in loops, and methods whose contracts
tie the new state to a function of the old one; the theorems are about those functions.

- **Chunked transfer coding** (`Chunked*.dfy`). `ChunkedSpec` is the byte-at-a-time automaton, `ChunkedDecoder` the
  resumable in-place loop with its fall-through, proved to do the same. `ChunkedStreams` has the theorems about
  streams cut into calls, `ChunkedGrammar` the grammar that the decoder accepts, in both directions, `ChunkedVerdicts`
  what it refuses and what it returns.
- **The request parser** (`Request*.dfy`, `Response*.dfy`, `Bytes.dfy`). `RequestSpec` is the plain three-valued
  parser; `RequestFastScan` and `RequestParser` are the loops, with the 16-byte blocks and the 8-way loop, proved equal
  to it. `RequestStability`, `RequestPreScan`, `RequestGrammar` and `ResponseGrammar` have the theorems about more data,
  the completeness pre-scan, and the grammars, with character classes of their own; `RequestVerdicts` and
  `ResponseVerdicts` say what a refusal and a partial verdict mean for the bytes that may still come.
- **The hash table and its primes** (`NumberTheory.dfy`, `TrialDivision.dfy`, `Primes.dfy`, `Hash*.dfy`). The number
  theory of quadratic probing, the sieve, the table on arrays, and the refinement of a finite map over every run.
  `HashDepth` bounds how deep keys lie; `HashLoss`, `HashCrowds` and `HashMiss` say exactly when a table is not a map.
- **The arena** (`Bitmap.dfy`, `NextFit.dfy`, `Arena.dfy`). The range operations on bits, the search order, and the
  allocator with ghost fields for the live regions; its class invariant covers every run of its operations.
- **makeheaders** (`Token*.dfy`, `Header*.dfy`). `TokenSpec`, `TokenStreams` and `Tokenizer` are the tokenizer chain;
  `TokenGrammar` says what each token looks like and `TokenNesting` which tokens count, neither in terms of the chain.
  `HeaderSpec` is the header generator as mutually recursive functions on states, `HeaderGenerator` the methods on flags
  and fields that do the same. `HeaderUses` says what a text uses. `HeaderLaws`, `HeaderRuns`, `HeaderOrder`,
  `HeaderPrecedence`, `HeaderMarks`, `HeaderComplete`, `HeaderPresence`, `HeaderContents` and `HeaderTypedefs` have the
  theorems about whole headers, `HeaderCalls` what a single call writes, `HeaderExamples` declarations that meet the
  conditions, `HeaderFaults` and `HeaderCycles` headers that miss what they should have.

`Options.dfy` holds the option type that several parts use.

## Where the code differs from what it says

The model follows the code.

- `src/protocol/picohttpparser.c:691` speaks of more than 80 percent overhead. The guard fires when the payload is
  less than a quarter of the bytes read, which is more than 75 percent (`ChunkedStreams.GuardMeaning`,
  `ChunkedGrammar.GuardFiresBelowFourFifths`).
- `src/protocol/picohttpparser.c:508` describes the pre-scan as a fast check. On headers alone it can report an accepted
  block as partial; `RequestPreScan.HeadersPreScan` says exactly when.
- A partial verdict is meant to ask for more data. On some buffers no data helps: the parser looks at an empty method,
  a version and a status only when more has come (`RequestVerdicts.RefusesExactly`, `ResponseVerdicts.RefusesExactly`).
- `src/ds/hash_table.c:113` ignores whether a reinsertion succeeded. A check that fires keeps all tables with at most
  p/2 + 1 keys and loses a key of some table with more (`HashLoss.CheckKeepsExactly`). On every prime size from 11 on a
  run gets there (`HashCrowds.RehashLosesKeys`).
- `src/ds/hash_table.c:205` squares in 32 bits, so from index 65536 on a deletion looks elsewhere than the insertion.
  With at most 65536 keys that never matters (`HashMiss.FewKeysAreMapped`); with n keys, up to p/2 + 1, it does not
  matter if and only if the deletion loop still gets to the slots of the first n probes (`HashMiss.RunsRefineExactly`).
  On size 173617 it does not (`HashMiss.LargeMisses`).
- `src/ds/hash_table.c:125` doubles in 64 bits, which wraps from 2^63 on: then a table that is made is too small
  (`HashTable.CreatedHalfFull`, `HashTable.WrappedNumberIsMade`).
- `include/ds/hash_table.h:2` says that equal keys can be stored. A second insertion of a key stores nothing.
- `tools/makeheaders.c:2620-2624` says that a nested call never changes the marks of an outer call for the same name.
  It does when the declarations of the name are not all due together: every text but that of a macro whose body starts
  with a star uses its own name in full, the nested call then finds work left, and it takes off the marks of those that
  wait. `HeaderComplete.GivenExactly` says exactly when the text is given out, and `HeaderFaults.TextLost` has a header
  without one: a function and a structure of one name, called for when a pointer to the structure is needed.
- `tools/makeheaders.c:2609-2614` makes sure of all `#include`s before a text is given out. When the condition of an
  `#include` calls for that text, the label counts already and the line comes behind the text
  (`HeaderCycles.IncludeFollows`); otherwise it stands before it (`HeaderContents.StandsBefore`).
- `tools/makeheaders.c:2560-2561` takes care that typedefs for the same identifier are only issued once. They are, unless
  one of their conditions calls for the identifier (`HeaderTypedefs.TypedefsOnce`, `HeaderCycles.TypedefRepeated`).
- `tools/makeheaders.c:2776` asserts that completing a declaration declares it. With the `-local` option there are
  forward declarations without a text (`tools/makeheaders.c:1548-1552`), and then it fails; `HeaderRuns.CompletesExactly`
  says exactly when.

## Model

| member | source | states |
|---|---|---|
| ChunkedSpec.DigitFits | src/protocol/picohttpparser.c:578-583 | Adding a digit to a size of fewer than 16 digits stays below 16^(digits), so the 64-bit accumulation never wraps. |
| ChunkedSpec.StepKeepsValid | src/protocol/picohttpparser.c:550-683 | Every step of the automaton keeps the machine valid: while a size is read it is below 16^`_hex_count` and `_hex_count` is at most 16; in data something is left; elsewhere the counters are zero. |
| ChunkedDecoder.MemMove | src/protocol/picohttpparser.c:631-632 | Moving bytes towards the front of the buffer changes nothing before the target and nothing behind it. |
| ChunkedDecoder.Decoder.constructor | src/protocol/picohttpparser.c:545 | A fresh decoder is in the initial state with zero counters. |
| ChunkedDecoder.Decoder.ReadSize | src/protocol/picohttpparser.c:554-586 | The size loop keeps the payload decoded so far and the untouched rest, and either stops with the automaton's verdict or falls through to the extension. |
| ChunkedDecoder.Decoder.SkipExtension | src/protocol/picohttpparser.c:588-601 | The same for the extension loop: it goes on past a CR and refuses a lone LF. |
| ChunkedDecoder.Decoder.EndHeader | src/protocol/picohttpparser.c:603-619 | The same for the end of a size line: data, trailer or the end of the message follow as the size and `consume_trailer` say. |
| ChunkedDecoder.Decoder.DeliverData | src/protocol/picohttpparser.c:621-637 | Moving data down in place delivers just the bytes that the automaton delivers one at a time, whether the chunk ends in this call or not. |
| ChunkedDecoder.Decoder.ExpectByte | src/protocol/picohttpparser.c:639-658 | The CR and the LF behind the data are demanded one by one. |
| ChunkedDecoder.Decoder.StartTrailerLine | src/protocol/picohttpparser.c:659-668 | A trailer line of carriage returns and a line feed ends the message; any other line is skipped. |
| ChunkedDecoder.Decoder.SkipTrailerLine | src/protocol/picohttpparser.c:670-679 | A trailer line is skipped up to its line feed. |
| ChunkedDecoder.Decoder.Loop | src/protocol/picohttpparser.c:552-683 | The loop over the switch with its fall-through stops with 0 <= dst <= src <= bufsz, the payload of the first src bytes in front, and the bytes from src on untouched. |
| ChunkedDecoder.Decoder.MoveRest | src/protocol/picohttpparser.c:688-690 | The undecoded suffix ends up unchanged behind the payload. |
| ChunkedDecoder.Decoder.Account | src/protocol/picohttpparser.c:685-697 | What is returned, and how an incomplete call adds to the overhead, modulo 2^64. |
| ChunkedDecoder.Decoder.Decode | src/protocol/picohttpparser.c:545-698 | One in-place call does what the byte-at-a-time automaton does on the same bytes: state, counters, returned number, payload in front, undecoded rest behind it, nothing changed beyond `bufsz`. |
| ChunkedStreams.RunSplit | src/protocol/picohttpparser.c:545-698 | Reading two parts one after the other is reading them at once. |
| ChunkedStreams.CallSplit | src/protocol/picohttpparser.c:545-698 | Two calls, the first incomplete, deliver, leave, return and end as one call on both pieces. |
| ChunkedStreams.CallIgnoresRest | src/protocol/picohttpparser.c:685-690 | A call that ends the message or refuses it is not affected by what follows, which stays undecoded. |
| ChunkedStreams.SplitInvariance | src/protocol/picohttpparser.c:545-698 | For every cutting of a stream into calls: same payload, same machine, same verdict and same undecoded rest as one call on the whole, as long as the overhead guard is quiet; an incomplete stream has the same counters, too. |
| ChunkedStreams.CallAccounting | src/protocol/picohttpparser.c:692-696 | An incomplete call adds the same to `_total_read` - `_total_overhead` as to the payload, modulo 2^64. |
| ChunkedStreams.Accounting | src/protocol/picohttpparser.c:692-696 | After any run of incomplete calls `_total_read` - `_total_overhead` is the payload delivered: exactly below 2^64 bytes, modulo 2^64 beyond. |
| ChunkedStreams.GuardMeaning | src/protocol/picohttpparser.c:691-696 | On a stream that needs more, the guard fires exactly when at least 100 KiB are framing and the payload is less than a quarter of the bytes read. |
| ChunkedGrammar.GuardFiresBelowFourFifths | src/protocol/picohttpparser.c:691-696 | There is an unfinished stream of 133000 bytes, 30000 of them payload, on which the guard fires although less than four fifths are framing. |
| ChunkedGrammar.RoundTrip | src/protocol/picohttpparser.c:545-698 | Decoding any encoded message (chunks of 1 to 16 digits, extensions without CR and LF, trailer lines) and any tail gives its payload and stops right behind it (section 4.1 of RFC 7230). |
| ChunkedGrammar.CallRoundTrip | src/protocol/picohttpparser.c:685-697 | For one call: the number returned is the length of the tail, and the tail is left as it was. |
| ChunkedGrammar.CompletedMessage | src/protocol/picohttpparser.c:545-698 | Whatever the decoder completes begins with the encoding of a message, with that payload and that length. |
| ChunkedGrammar.CompletesExactlyOnMessages | src/protocol/picohttpparser.c:545-698 | The decoder completes on a stream if and only if it begins with the encoding of a message. |
| ChunkedGrammar.DecodesDigits | src/protocol/picohttpparser.c:532-543 | A byte has the value of its position in "0123456789abcdef" or "0123456789ABCDEF", and -1 if it is in neither. |
| ChunkedGrammar.EndsSizes | src/protocol/picohttpparser.c:564-577 | Behind the digits of a size just space, tab, semicolon, CR and LF are let through, and none of them is a digit. |
| ChunkedVerdicts.RefusesExactly | src/protocol/picohttpparser.c:545-698 | A stream is malformed if and only if no continuation of it begins with a message, and needs more if and only if some does and it does not yet. |
| ChunkedVerdicts.StopsAtFirst | src/protocol/picohttpparser.c:550-683 | A refused stream is read up to the first byte with which no message can go on; the bytes from there are the undecoded rest. |
| ChunkedVerdicts.NumbersExactly | src/protocol/picohttpparser.c:685-697 | What a fresh call returns: the length of the rest behind a message, -1 if no continuation begins with a message or the guard fires, and -2 otherwise. |
| RequestFastScan.CompareBlock | src/protocol/picohttpparser.c:115 | The contract of the 16-byte comparison: the least index of a byte in one of the ranges, or 16. |
| RequestFastScan.FindCharFast | src/protocol/picohttpparser.c:105-132 | Whole blocks are skipped only if they have no byte in the ranges; what is found is the first such byte. |
| RequestFastScan.ParseToken | src/protocol/picohttpparser.c:245-277 | With blocks or without, the token ends where a one-byte-at-a-time scan ends it, with the same verdict. |
| RequestFastScan.AdvancePath | src/protocol/picohttpparser.c:71-94 | The same for the path. |
| RequestFastScan.FindTextEndByBlocks | src/protocol/picohttpparser.c:138-145 | The end of a text by 16-byte blocks is its end by single bytes. |
| RequestFastScan.FindTextEndByEights | src/protocol/picohttpparser.c:147-179 | The end of a text by the 8-way unrolled loop is its end by single bytes. |
| RequestParser.GetTextLine | src/protocol/picohttpparser.c:134-195 | Both variants give the text, and the position behind its line end, of the plain scan; a CR must be followed by LF. |
| RequestParser.GetVersion | src/protocol/picohttpparser.c:280-296 | The version is read as specified, and waits for 9 bytes. |
| RequestParser.TrimValue | src/protocol/picohttpparser.c:341-350 | Trailing spaces and tabs, and only those, are cut off a value. |
| RequestParser.ParseHeaderLine | src/protocol/picohttpparser.c:315-350 | A header line has a nonempty name unless it continues another. |
| RequestParser.ParseHeaderBlock | src/protocol/picohttpparser.c:298-353 | The loop writes into the array just the headers of the specified parse, no more than it holds, or fails with the same verdict. |
| RequestParser.GetRequestLine | src/protocol/picohttpparser.c:368-396 | The request line is parsed as specified. |
| RequestParser.PreScan | src/protocol/picohttpparser.c:197-223 | The completeness loop finds what the specified scan finds from `last_len` - 3 on. |
| RequestParser.PhrParseRequest | src/protocol/picohttpparser.c:401-427 | The returned number and, on success, the fields and headers are those of the specified three-valued parse behind its pre-scan. |
| RequestParser.GetStatusLine | src/protocol/picohttpparser.c:432-469 | The status line is parsed as specified. |
| RequestParser.PhrParseResponse | src/protocol/picohttpparser.c:474-498 | The same for a response. |
| RequestParser.PhrParseHeaders | src/protocol/picohttpparser.c:500-519 | The same for headers alone. |
| RequestStability.RequestStable | src/protocol/picohttpparser.c:298-427 | A request that is accepted or refused is accepted or refused, with the same result, on every extension; acceptance depends on the consumed bytes alone. |
| RequestStability.ResponseStable | src/protocol/picohttpparser.c:429-498 | The same for responses. |
| RequestPreScan.RequestTerminated | src/protocol/picohttpparser.c:298-399 | In every accepted request each CR is followed by LF, and it ends in two line ends. |
| RequestPreScan.ResponseTerminated | src/protocol/picohttpparser.c:429-472 | The same for responses. |
| RequestPreScan.PreScanPasses | src/protocol/picohttpparser.c:197-223 | Backing up 3 bytes reaches far enough to see both line ends when the last byte of them is new. |
| RequestPreScan.RequestPreScanNeutral | src/protocol/picohttpparser.c:401-427 | If `last_len` bytes were partial, the pre-scan changes neither what is accepted nor its length and slices. |
| RequestPreScan.ResponsePreScanNeutral | src/protocol/picohttpparser.c:474-498 | The same for responses. |
| RequestPreScan.PreScanRefusalIsFinal | src/protocol/picohttpparser.c:415-419 | A request that the pre-scan refuses would not be accepted on any continuation. |
| RequestPreScan.ResponsePreScanRefusalIsFinal | src/protocol/picohttpparser.c:488-492 | The same for a response. |
| RequestPreScan.PreScanFindsExactly | src/protocol/picohttpparser.c:197-223 | From a place that is not inside a line end the pre-scan succeeds if and only if, before any CR without LF, two line ends in a row follow, or one at once when another was just seen. |
| RequestPreScan.HeadersPreScan | src/protocol/picohttpparser.c:500-519 | For headers alone the pre-scan is neutral unless the bytes begin with CR LF and, before any CR without LF, neither a line end follows at once nor two in a row later: if and only if. |
| RequestPreScan.HeadersPreScanFails | src/protocol/picohttpparser.c:508-512 | The failing case: an empty header block `CR LF` of which one byte was seen is reported as partial. |
| RequestPreScan.PreScanDecides | src/protocol/picohttpparser.c:197-223 | Behind three bytes before the last length: the buffer is parsed if a blank line follows before any CR without LF, refused if such a CR follows and no blank line does, and partial otherwise. |
| RequestGrammar.RoundTrip | src/protocol/picohttpparser.c:298-427 | Parsing any rendered request (CRLF or LF, optional leading blank line, folded lines, up to `max_headers` headers) and any tail gives back the fields and consumes just the rendering (sections 3.1.1 and 3.2 of RFC 7230). |
| RequestGrammar.Unread | src/protocol/picohttpparser.c:298-427 | Whatever is accepted begins with the rendering of a request. |
| RequestGrammar.AcceptsExactlyRequests | src/protocol/picohttpparser.c:298-427 | The parser accepts a buffer if and only if it begins with the rendering of a request with at most `max_headers` headers. |
| RequestGrammar.TokenChars | src/protocol/picohttpparser.c:96-103 | The token table has the letters, the digits and the 15 signs of section 3.2.6 of RFC 7230, and nothing else. |
| RequestGrammar.OtherChars | src/protocol/picohttpparser.c:53-86 | The tests for control characters, text, blanks and digits are those of the grammar's classes, which are listed on their own. |
| RequestVerdicts.LinePartialExactly | src/protocol/picohttpparser.c:368-396 | A request line that is partial has a continuation that completes it, unless its method is empty or its version has begun wrongly. |
| RequestVerdicts.RefusesExactly | src/protocol/picohttpparser.c:401-427 | A buffer is refused if and only if no continuation of it begins with a request, but for one that waits in vain: with an empty method before the version, or with fewer than nine bytes of a version that has begun wrongly. |
| RequestVerdicts.HeadersRefusedExactly | src/protocol/picohttpparser.c:500-519 | Headers alone are refused if and only if no continuation completes them. |
| ResponseGrammar.RoundTrip | src/protocol/picohttpparser.c:429-498 | Parsing any rendered response (version, spaces, three digits, a phrase behind spaces or none, headers) and any tail gives back the fields and consumes just the rendering (sections 3.1.2 and 3.2 of RFC 7230). |
| ResponseGrammar.Unread | src/protocol/picohttpparser.c:429-498 | Whatever is accepted begins with the rendering of a response. |
| ResponseGrammar.AcceptsExactlyResponses | src/protocol/picohttpparser.c:429-498 | The parser accepts a buffer if and only if it begins with the rendering of a response with at most `max_headers` headers. |
| ResponseVerdicts.RefusesExactly | src/protocol/picohttpparser.c:474-498 | A buffer is refused if and only if no continuation of it begins with a response, but for one that waits in vain: with a version or a status that has begun wrongly, or a phrase right behind the status. |
| NumberTheory.PrimeSparesProduct | src/ds/hash_table.c:34-35 | A prime divides no product of two smaller positive numbers. |
| NumberTheory.ProbesDiffer | src/ds/hash_table.c:34-35 | On a prime size the first p/2 + 1 probes reach different slots. |
| NumberTheory.ProbesFold | src/ds/hash_table.c:34-35 | Each later probe returns to a slot already reached. |
| NumberTheory.ReachSize | src/ds/hash_table.c:34-35 | The probe sequence reaches exactly (p+1)/2 slots for odd p. |
| Primes.PrimesBelowExact | src/other/prime.c:17-24 | The list of primes has all of them and nothing else, increasing. |
| Primes.CandidatesArePrimes | src/other/prime.c:28-33 | The second pass counts 0, 1 and then the primes. |
| Primes.SampleIndices | src/other/prime.c:19-40 | The samples counted in the first pass are all found in the second; each is the prime two places earlier. |
| Primes.CrossOut | src/other/prime.c:21-23 | The inner loop marks the proper multiples of a number and nothing else. |
| Primes.PrimeTable.Sieve | src/other/prime.c:17-24 | After the first pass a number from 2 on is marked if and only if it is not prime, and one sample is counted for each hundred primes. |
| Primes.PrimeTable.Sample | src/other/prime.c:26-41 | The second pass fills every entry of the array. |
| Primes.PrimeTable.Init | src/other/prime.c:11-44 | Both passes together fill the table. |
| Primes.PrimeTable.FilledWithPrimes | src/other/prime.c:26-41 | All entries are prime and strictly increasing, for every sieve bound. |
| Primes.PrimeTable.Search | src/ds/hash_table.c:127-139 | The binary search gives the least entry that is at least the number, or the last. |
| HashSpec.SeekMeaning | src/ds/hash_table.c:34-64 | The insertion loop finds a live key, or a slot on its path that is not alive when the key is nowhere, or meets live slots only. |
| HashSpec.StoreMeaning | src/ds/hash_table.c:49-62 | Filling that slot adds just the entry: no duplicate, every key still reachable. |
| HashSpec.RemoveMeaning | src/ds/hash_table.c:207-211 | A tombstone removes just the entry and breaks no path. |
| HashSpec.RoomForOneMore | src/ds/hash_table.c:34-75 | With at most p/2 live keys no absent key is refused. |
| HashTableSpec.InsertSelfMeaning | src/ds/hash_table.c:27-76 | A present key keeps its value, and the answer is whether the values differ; an absent key is added, surely so at most half full, or the table is unchanged. |
| HashTableSpec.ReinsertMeaning | src/ds/hash_table.c:110-115 | Reinserting invents and changes nothing, and drops nothing when at most p/2 + 1 keys are live. |
| HashTableSpec.CheckMeaning | src/ds/hash_table.c:80-119 | The check keeps the map of such a table whether or not it rehashes. |
| HashTableSpec.CheckFiresExactly | src/ds/hash_table.c:80-86 | Without wrapping the check fires if and only if more than three quarters of the slots are in use and more than a quarter of those are tombstones. |
| HashTableSpec.QueryMeaning | src/ds/hash_table.c:177-193 | A query gives exactly the map's value. |
| HashTableSpec.InsertMeaning | src/ds/hash_table.c:172-174 | Insertion with its check is insertion into the map. |
| HashTableSpec.WrappedProbesSuffice | src/ds/hash_table.c:205-206 | All indices up to half the size have exact 32-bit squares if and only if the size is below 131072. |
| HashTableSpec.WrappedProbeMisses | src/ds/hash_table.c:205-206 | On a larger prime size the probe with index 65536 looks elsewhere than insertion does. |
| HashTableSpec.ExactProbesReach | src/ds/hash_table.c:203-217 | On every size the deletion loop gets to the slots of the first 65536 probes, as the insertion loop does. |
| HashTableSpec.FindWrappedMeaning | src/ds/hash_table.c:203-217 | If all keys lie within n probes and the deletion loop gets to the slots of those, it finds every live key. |
| HashTableSpec.DeleteMeaning | src/ds/hash_table.c:200-218 | A deletion removes just the key, and says whether the key was there, if the keys lie where the deletion loop gets to. |
| HashDepth.SeekIsLow | src/ds/hash_table.c:34-64 | The slot that an insertion fills is the first on the path of the key that is not alive. |
| HashDepth.LiveProbesAreFew | src/ds/hash_table.c:34-64 | Below half full, probes that meet live slots only are no more than the keys. |
| HashDepth.InsertIsShallow | src/ds/hash_table.c:172-174 | An insertion keeps all keys within n probes while there are at most n, its rehash included. |
| HashDepth.ReinsertIsShallow | src/ds/hash_table.c:102-118 | A rehash puts n keys within n probes. |
| HashDepth.DeleteIsShallow | src/ds/hash_table.c:200-218 | A deletion keeps all keys within n probes. |
| HashRuns.RunRefines | src/ds/hash_table.c:27-218 | Over every run of insertions, queries and deletions that keeps at most n keys, up to p/2 + 1, on a size on which the deletion loop gets to the slots of n probes: all answers and the contents are those of a finite map, whenever the check fires and whether or not it gets memory. |
| HashRuns.FreshTableRefines | src/ds/hash_table.c:122-218 | A fresh table of any prime size at least 2 number is a map over every run of at most number keys, up to 65536. |
| HashRuns.FullCapacityRefines | src/ds/hash_table.c:27-218 | Any valid table with at most p/2 + 1 keys is a map over every run of at most that many, on a size on which the deletion loop gets to the slots of p/2 + 1 probes. |
| HashLoss.CrowdTableLoses | src/ds/hash_table.c:80-119 | When the check fires on a crowd with tombstones, built for any prime size from 3 on, it loses the key that comes last. |
| HashLoss.CheckKeepsExactly | src/ds/hash_table.c:80-119 | For every prime size p and all counters: the check keeps the map of all valid tables with n live keys, d tombstones and the count a if and only if n is at most p/2 + 1 or the check does not fire. |
| HashCrowds.RehashLosesKeys | src/ds/hash_table.c:27-218 | For every prime size from 11 up to 2^29: a run within p keys from the empty table gets to one whose next check loses a live key, which the deletion that makes the check then does not find. |
| HashMiss.DeletesExactly | src/ds/hash_table.c:200-218 | For every prime size, key and probe that reaches a new slot: a deletion finds the key in all valid tables in which it lies at that probe if and only if the deletion loop gets to that slot. |
| HashMiss.DeletionMisses | src/ds/hash_table.c:200-218 | If it does not get to the slot of probe i, a run of i + 1 insertions puts the key there and a deletion behind them does not find it. |
| HashMiss.InsertionFails | src/ds/hash_table.c:65-75 | On every prime size a run of p/2 + 2 insertions ends in one that is refused. |
| HashMiss.RunsRefineExactly | src/ds/hash_table.c:27-218 | For every prime size p and every n: the answers are those of a finite map over all runs from the empty table that keep at most n keys if and only if n is at most p/2 + 1 and the deletion loop gets to the slots of the first n probes. |
| HashMiss.FewKeysAreMapped | src/ds/hash_table.c:27-218 | So they are on every prime size for n up to 65536 and p/2 + 1. |
| HashMiss.LargeSizeMisses | src/ds/hash_table.c:205-206 | The deletion loop does not get to the slot of probe 65536 on any prime size above 131072 on which 131073 is congruent to no square of a number up to 65536. |
| HashMiss.LargeMisses | src/ds/hash_table.c:200-218 | So it is on the prime size 173617: for every 32-bit key a run of 65537 insertions of 32-bit keys from the empty table and a deletion that fails where a map succeeds. |
| HashTable.HashTable.constructor | src/ds/hash_table.c:142-156 | A created table is valid and empty. |
| HashTable.HashTable.Store | src/ds/hash_table.c:58-60 | One slot becomes live with the key and the value; no other changes. |
| HashTable.HashTable.Place | src/ds/hash_table.c:34-75 | The probe loop on the arrays does what the specified insertion does, counters included. |
| HashTable.HashTable.InsertSelf | src/ds/hash_table.c:27-76 | The same with the optional check in front. |
| HashTable.HashTable.Renew | src/ds/hash_table.c:102-108 | New arrays of the same size, all empty, and zero counters. |
| HashTable.HashTable.Rehash | src/ds/hash_table.c:102-118 | New arrays get the old live entries, slot by slot. |
| HashTable.HashTable.HashCheck | src/ds/hash_table.c:80-119 | The check on the arrays is the specified check. |
| HashTable.HashTable.Insert | src/ds/hash_table.c:172-174 | Insertion on the arrays is the specified insertion. |
| HashTable.HashTable.Query | src/ds/hash_table.c:177-193 | The query loop gives the value of the map. |
| HashTable.HashTable.Delete | src/ds/hash_table.c:200-218 | Deletion on the arrays is the specified deletion. |
| HashTable.HashCreate | src/ds/hash_table.c:122-157 | Creation fails if and only if no sampled prime is at least 2 number (in 64 bits), and takes the least one otherwise. |
| HashTable.CreatedHalfFull | src/ds/hash_table.c:125-140 | Whatever table is made for number keys is at most half full with them if and only if the doubling does not wrap, or wraps to more than the last sample, for which no table is made. |
| HashTable.WrappedNumberIsMade | src/ds/hash_table.c:125-140 | For 2^63 keys a table of the smallest sampled size is made. |
| Bitmap.BytesToBits | src/ds/bitmap.c:7-50 | Masks at the ends and whole bytes between change exactly the bits start..end. |
| Bitmap.SetRange | src/ds/bitmap.c:7-27 | Exactly the bits start..end become set. |
| Bitmap.UnsetRange | src/ds/bitmap.c:30-50 | Exactly the bits start..end become clear. |
| NextFit.NextFitUnique | src/ds/ping_arena.c:36-54 | The search order has one answer. |
| NextFit.CyclicIsRemainder | src/ds/ping_arena.c:38 | The search counts blocks from `now` around. |
| Arena.Arena.constructor | src/ds/ping_arena.c:10-25 | A new arena is free. |
| Arena.Arena.FindRun | src/ds/ping_arena.c:31-58 | For a positive count the search gives the first free run of it that lies wholly in now..cap or wholly in 0..now, and nothing if and only if there is none. |
| Arena.Arena.TakeRun | src/ds/ping_arena.c:60-65 | Taking a free run marks just its blocks. |
| Arena.Arena.AllocBlock | src/ds/ping_arena.c:27-75 | Allocation takes the run of the search, gives the bytes behind its header, and moves `now` behind it. |
| Arena.Arena.Recycle | src/ds/ping_arena.c:82-91 | Freeing clears just the blocks of the run, as many as its header says. |
| Arena.Arena.Clean | src/ds/ping_arena.c:101-106 | Cleaning forgets all regions. |
| Arena.Arena.FindShared | src/ds/ping_arena.c:111-130 | The search for a small object gives the first block that can take it, if one can. |
| Arena.Arena.TakesExactly | src/ds/ping_arena.c:111-130 | A block can take an object if and only if it is free, or holds fewer than 255 objects that leave room for it below 4096 bytes. |
| Arena.Arena.AllocRef | src/ds/ping_arena.c:108-141 | A small object gets the end of the used part of that block. |
| Arena.Arena.TakeObject | src/ds/ping_arena.c:132-135 | Taking the object keeps all other objects. |
| Arena.Arena.RecycleRef | src/ds/ping_arena.c:143-152 | Freeing an object keeps the others, and the block becomes free exactly with its last one. |
| Arena.ObjectTaken | src/ds/ping_arena.c:134-135 | Taking an object keeps the books of its block, and neither the 8-bit count nor the 16-bit length wraps, although a count of 255 also stands for exclusive use. |
| Arena.ObjectFreed | src/ds/ping_arena.c:147-150 | The count reaches zero exactly with the last object. |
| Arena.Arena.RegionsDisjoint | src/ds/ping_arena.c:27-152 | In every reachable state live regions are in bounds and pairwise disjoint. |
| Arena.Arena.HeadersHoldCounts | src/ds/ping_arena.c:65-84 | The header of a live run holds the count that frees it. |
| Arena.Arena.Books | src/ds/ping_arena.c:108-152 | A bit is set exactly for a block in use, a clear one has zero count and length, and a shared block's count is the number of its objects. |
| Tokenizer.InStream.SkipDirective | tools/makeheaders.c:789-807 | A directive ends at the line feed that no backslash escapes; the lines in it are counted. |
| Tokenizer.InStream.SkipLiteral | tools/makeheaders.c:833-866 | A literal ends at its unescaped quote, or with an error at the end of the text. |
| Tokenizer.InStream.SkipComment | tools/makeheaders.c:868-907 | A comment ends at its end mark, or with an error; it stays a block comment while each line starts with a star. |
| Tokenizer.InStream.SkipNumber | tools/makeheaders.c:922-951 | A number ends as specified. |
| Tokenizer.InStream.GetToken | tools/makeheaders.c:770-992 | The token cut is the specified one and has the line it starts in, the stream moves just past it, and the line counter grows by the line feeds in it. |
| Tokenizer.InStream.GetNonspaceToken | tools/makeheaders.c:1004-1065 | The loop with its two variables for `#if 0` gives the specified next token that counts, with the line it starts in and the errors on the way. |
| Tokenizer.InStream.GetBigToken | tools/makeheaders.c:1108-1184 | The same with braces and all they hold as one token, which has the line of its opening brace. |
| Tokenizer.TokenizeFile | tools/makeheaders.c:1209-1242 | The list is that of all big tokens, each with the line it starts in, or empty if there was an error. |
| TokenStreams.CutAdvances | tools/makeheaders.c:770-992 | Cutting always advances, and leaves the text only at a directive that ends in a backslash at its end. |
| TokenStreams.Lossless | tools/makeheaders.c:770-992 | The texts of all tokens, one after another, are the text, if no directive ends so. |
| TokenStreams.OverrunOnlyAtDirective | tools/makeheaders.c:789-807 | The tokens stay in the text if and only if each directive that is cut does. |
| TokenStreams.NonspaceIsFirst | tools/makeheaders.c:1004-1065 | The next token that counts is the first of all tokens that is no white space or comment and not under an `#if 0`. |
| TokenGrammar.Classes | tools/makeheaders.c:770-992 | The tokenizer's tests for white space, digits, hexadecimal digits, letters and doubled operators are those of the listed characters. |
| TokenGrammar.DirectiveExactly | tools/makeheaders.c:789-807 | A directive goes to the first line feed that an even number of backslashes precedes, and past the end of the text if an odd number ends it. |
| TokenGrammar.LiteralExactly | tools/makeheaders.c:833-866 | A literal goes to the first quote that an even number of backslashes precedes; without one it ends with the text, in error unless an odd number ends it. |
| TokenGrammar.CommentKind | tools/makeheaders.c:875-907 | A comment goes to the first end mark; it documents something if and only if it is closed, starts its line, has several lines, and a star begins each after one character at most. |
| TokenGrammar.CutExactly | tools/makeheaders.c:770-992 | The token cut at any position is the one that the lexical grammar describes by its characters and the one behind it, and no other. |
| TokenGrammar.LinesAreCounted | tools/makeheaders.c:770-992 | The line counter grows by the number of line feeds in a stretch. |
| TokenNesting.HiddenExactly | tools/makeheaders.c:1038-1051 | The tokenizer is under an `#if 0` if and only if some `#if 0` before has no matching `#endif` yet, `#if` and `#endif` counted by the first letters of their words. |
| TokenNesting.EndifEnds | tools/makeheaders.c:1043-1049 | Behind the `#endif` that matches an `#if 0` the text is hidden if and only if it was before that `#if 0`. |
| TokenNesting.NextIsFirstVisible | tools/makeheaders.c:1004-1065 | The next token that counts is the first that is no white space or comment, opens no `#if 0` and is under none; the errors are those of the tokens up to it, and one more if the text ends under an `#if 0`. |
| TokenNesting.BigExactly | tools/makeheaders.c:1108-1184 | A big token is the next token that counts or, from an opening brace on, the slice up to the token that balances it, an error if none does; its errors are those on the way, and one more if nothing balances the brace. |
| TokenNesting.BigTokensGoOn | tools/makeheaders.c:1209-1242 | The list of big tokens goes on to the end of the text, each the one found behind the one before, and counts their errors. |
| TokenStreams.BracesBalance | tools/makeheaders.c:1138-1183 | A braces token is the slice from its opening brace to the first counted token at which the counted braces balance. |
| TokenStreams.BigTokensInOrder | tools/makeheaders.c:1209-1242 | The list without errors has nonempty tokens in the order of the text, none overlapping another. |
| HeaderSpec.LeftShrinks | tools/makeheaders.c:2498-2758 | The number of undeclared and unforwarded declarations and unused labels never grows, and drops with each flag or label set; it bounds the recursion on every database, cyclic ones included. |
| HeaderUses.UsesExactly | tools/makeheaders.c:2703-2758 | A text uses the names of declarations among its tokens, directives taken apart, in their order, as pointers where a star follows; provided that behind a name neither a directive comes nor the last word of the text. |
| HeaderGenerator.InstalledIsSound | tools/makeheaders.c:523-547 | Installing keeps every declaration in the chain of its name, once, and no other there. |
| HeaderGenerator.DeclTable.InstallDecl | tools/makeheaders.c:523-547 | A new declaration becomes the last of all and the second of its chain. |
| HeaderGenerator.Generator.ChangeIfContext | tools/makeheaders.c:2498-2521 | The method on flags and header does what the specified function does on states, and terminates. |
| HeaderGenerator.Generator.AddIncludes | tools/makeheaders.c:2529-2544 | The same: last of the list first, each label once. |
| HeaderGenerator.Generator.NextUse | tools/makeheaders.c:2717-2756 | Reading on in a text gives its next use and leaves the rest of its uses. |
| HeaderGenerator.Generator.ScanText | tools/makeheaders.c:2703-2758 | What a text uses is declared use by use, as specified. |
| HeaderGenerator.Generator.DeclareForwards | tools/makeheaders.c:2580-2592 | The loop over a chain for its forward declarations. |
| HeaderGenerator.Generator.FindSuitable | tools/makeheaders.c:2601-2607 | Whether all flags wanted are set already. |
| HeaderGenerator.Generator.MarkChain | tools/makeheaders.c:2626-2635 | Exactly the declarations that are due get the three flags; the others lose the mark. |
| HeaderGenerator.Generator.ScanChain | tools/makeheaders.c:2641-2650 | The marked texts are searched. |
| HeaderGenerator.Generator.EmitChain | tools/makeheaders.c:2657-2681 | The marked texts but typedefs are given out, one enumeration at most. |
| HeaderGenerator.Generator.EmitFirst | tools/makeheaders.c:2682-2690 | The first text still marked is given out. |
| HeaderGenerator.Generator.DeclareObject | tools/makeheaders.c:2563-2691 | The whole call does what the specified function does, and terminates. |
| HeaderGenerator.Generator.ResetDeclFlags | tools/makeheaders.c:2475-2484 | Only what is local to other files counts as declared. |
| HeaderGenerator.Generator.CompleteForwardDeclarations | tools/makeheaders.c:2764-2780 | The loop ends, in the specified state or at the specified failure. |
| HeaderGenerator.Generator.MakeHeader | tools/makeheaders.c:2789-2818 | The header of a file is the specified one, whatever marks are left over. |
| HeaderLaws.ChangeIfContextKeeps | tools/makeheaders.c:2498-2521 | Moving to another `#if` keeps the header proper and ends in the `#if` wanted. |
| HeaderLaws.DeclareObjectKeeps | tools/makeheaders.c:2563-2691 | A call gives out no line that is on record and no line twice, keeps the header proper, and declares nothing without a text. |
| HeaderRuns.DeclareProvides | tools/makeheaders.c:2563-2691 | Behind a call all forward declarations of the chain are on record, and all full ones if wanted. |
| HeaderRuns.ScanProvides | tools/makeheaders.c:2703-2758 | Behind the search of a text the same holds for everything it uses. |
| HeaderRuns.HeaderIsProper | tools/makeheaders.c:2789-2818 | In every header: `#if` and `#endif` are balanced and never nested, every line is within exactly the `#if` of its declaration, and no `#include` and no forward declaration is there twice, nor any full text of a tame declaration. |
| HeaderRuns.HeaderProvides | tools/makeheaders.c:2789-2818 | A finished header provides for all names, and leaves nothing only forward declared. |
| HeaderRuns.CompletesExactly | tools/makeheaders.c:2764-2780 | The assertion in the completing loop holds for all lists of names if and only if every declaration with a forward declaration has a text or is local to another file. |
| HeaderCalls.QuietCall | tools/makeheaders.c:2563-2691 | What a call writes on a chain without conditions whose texts call for nothing but their own name: the new forward declarations, of typedefs only the first; then, unless all is there, each new `#include`, the last of a declaration first, the texts that are due in the order of the chain, of enumerations only the first, and one typedef if none of either kind was written. |
| HeaderCalls.SameContext | tools/makeheaders.c:2502-2509 | Where the `#if` that is wanted is open, nothing is written. |
| HeaderPresence.DeclareObjectGood | tools/makeheaders.c:2563-2691 | What every call keeps for a line watched: it is in the header once it is on record, unless it is still to come; all that is given out is needed, uses what is provided, and stands behind the lines it asks for. |
| HeaderContents.LabelsExactly | tools/makeheaders.c:2529-2544 | The label of an `#include` is on record if and only if its line is in the header, and then once. |
| HeaderContents.IncludesAreThere | tools/makeheaders.c:2609-2614 | Each `#include` of a declaration whose text is in a header is in it, just once. |
| HeaderContents.TextIsDeclared | tools/makeheaders.c:2475-2484 | A text in a header is that of a declaration on record which is not local to another file. |
| HeaderContents.ForwardsExactly | tools/makeheaders.c:2580-2592 | A forward declaration is in the header, once, if it is on record and not local to another file, and not otherwise; but a typedef on record may be left out when one for the same name is there. |
| HeaderContents.StandsBefore | tools/makeheaders.c:2563-2691 | The `#include`s and the forward declaration of a text, and the forward declarations of all that it uses, stand before it, unless the condition of such a line calls for the name of the text. |
| HeaderContents.UsesAreProvided | tools/makeheaders.c:2637-2650 | All that a text or a condition in a header uses is on record. |
| HeaderContents.UsedIsThere | tools/makeheaders.c:2637-2690 | All that a text or a condition in a finished header uses is in it: the forward declarations, and the texts of a name whose declarations are due together, once. |
| HeaderContents.OnlyNeededIsThere | tools/makeheaders.c:2789-2818 | If the names and all that is used under them stay within a set of names, each line of the header belongs to a declaration under one of them that is not local to another file. |
| HeaderCycles.IncludeFollows | tools/makeheaders.c:2609-2614 | Where the condition of its only `#include` calls for a declaration, its text stands before that `#include` in the header for its name. |
| HeaderCycles.LoopingAsksForItself | tools/makeheaders.c:2609-2614 | There is such a declaration. |
| HeaderTypedefs.TypedefsOnce | tools/makeheaders.c:2559-2692 | Of the forward typedefs, typedefs and enumerations of one name a header has at most one, if their conditions do not call for the name. |
| HeaderCycles.TypedefRepeated | tools/makeheaders.c:2559-2592 | A header that typedefs a name twice: the condition of the forward typedef calls for the name. |
| HeaderOrder.DeclareObjectSpares | tools/makeheaders.c:2563-2691 | Unless declarations of different names need each other in full, a call for a lower name does not give out a higher declaration. |
| HeaderPrecedence.DeclareObjectSorts | tools/makeheaders.c:2563-2691 | A call keeps the header in order. |
| HeaderPrecedence.HeaderInOrder | tools/makeheaders.c:2637-2690 | Unless declarations of different names need each other in full: where a text is in the header, what it needs is on record, and is not declared behind it, neither in full nor forward. |
| HeaderMarks.DeclareObjectTreats | tools/makeheaders.c:2609-2635 | What a nested call does to the mark of a declaration waiting to be given out: it stays if nothing is left to do for its name, is never set again, and is taken off if the call declares another of its name. |
| HeaderComplete.GivenExactly | tools/makeheaders.c:2620-2691 | A declaration that a call finds due is given out by that call if and only if every other declaration of its name is declared already or due with it. |
| HeaderComplete.DeclareObjectDelivers | tools/makeheaders.c:2563-2691 | A call that declares a declaration of a name whose declarations are due together gives out its text, whatever declarations need each other. |
| HeaderComplete.DeclaredIsGiven | tools/makeheaders.c:2789-2818 | For a name whose declarations are due together: a text is in the header just once if it counts as declared, and not at all otherwise. |
| HeaderComplete.NamesAreGiven | tools/makeheaders.c:2789-2818 | A finished header has the text of every declaration of each such name that it was made for, just once. |
| HeaderComplete.NeededStandsBefore | tools/makeheaders.c:2637-2690 | Where a text is in the header, the text of such a declaration that it needs in full stands before it. |
| HeaderExamples.OrderlyIsOrdered | tools/makeheaders.c:2637-2690 | A structure and a function that takes one, with the texts that the parser writes, meet the conditions of these theorems. |
| HeaderFaults.TextLost | tools/makeheaders.c:2620-2635 | A header without a text that counts as declared: of a function that shares its name with a structure. |

## Left out

- Sockets, timers, the event loop, the connection life cycle and the protocol dispatch: system calls.
- `src/protocol/http.c` and `src/route/router.c`: responses, files and caches; input and output.
- `src/ds/linklist.c`, `src/ds/id_list.c`, `src/ds/str.c` and `src/ds/buffer.c`: they would only add easy members.
- RequestFastScan.CompareBlock: the instruction itself is not modelled, only its contract; a block is 16 characters.
- RequestFastScan.ParseToken: asks for characters below 256, which bytes are; a character stands for a byte.
- RequestParser.PhrParseRequest: says nothing of the slices, the version and the array when the parse fails. Slices are
  offsets and lengths instead of pointers.
- RequestParser.PhrParseResponse: says nothing of the status, the message and the array when the parse fails.
- RequestParser.PhrParseHeaders: says nothing of the array when the parse fails.
- ChunkedDecoder.Decoder.Decode: starts from a state that a fresh decoder can reach; the source asserts the same of the
  state's number. `phr_decode_chunked_is_in_data` is one comparison.
- HashTable.HashTable.Insert: whether a rehash gets its memory is a parameter; values are of any type with equality
  instead of bytes, and keys are numbers of any size.
- HashTable.HashCreate: the memory of the table itself is taken to be there. `hash_free` is not modelled.
- HashTableSpec.DeleteMeaning: does not say of a table which keys are found that lie where the deletion loop misses a
  slot; `HashMiss.DeletesExactly` says it of all tables.
- HashMiss.LargeMisses: that 173617 is the sample with index 157 is not proved, only that it is prime; that would take
  counting the 15797 primes below it.
- HashRuns.FreshTableRefines: leaves out runs of more than 65536 keys, of which `HashMiss.RunsRefineExactly` speaks.
- HashCrowds.RehashLosesKeys: leaves out sizes from 2^29 on, for which the 32-bit counters wrap; the source's are below
  500000.
- Primes.PrimeTable.Init: the wrap of `i * 2` in `int` for sieve bounds near 2^31 is not modelled; the source's bound is
  500000.
- Arena.Arena.AllocBlock: addresses are offsets from the start of the blocks, memory is taken to be there, and the
  contents of blocks are not modelled but for the header words of runs. Assertions of the source are preconditions.
- Arena.Arena.Recycle: a freed pointer must be that of a live region of the right kind, as the source takes for granted.
- Tokenizer.InStream.GetToken: a text has no NUL inside, and the model reads NUL wherever the source would read past the
  one at its end; messages and the position of block comments are left out. Lines are results beside the token.
- Tokenizer.InStream.GetNonspaceToken: where `sscanf` reads `if` and a zero is a parameter.
- Tokenizer.InStream.GetBigToken: does not fill a table of identifiers.
- Tokenizer.TokenizeFile: the list is a sequence instead of linked tokens.
- HeaderGenerator.Generator.DeclareObject: appends lines to a list instead of their text to a string; so the language's
  variant of a forward declaration, the `extern` in front of a text, and the error for C++ objects in C are left out.
  Chains are lists of numbers instead of linked declarations, and `InsertExtraDecl` has been done before.
- HeaderGenerator.Generator.EmitChain: gives out lines without the `extern` prefixes, and without the error for C++
  objects in C.
- HeaderGenerator.Generator.ScanChain: passes over a marked declaration without a text, which never is marked.
- HeaderGenerator.DeclTable.InstallDecl: chains and labels are found in a map and a set instead of hash tables with
  collision lists.
- HeaderRuns.HeaderIsProper: says nothing of the full text of a declaration that is not tame, a typedef with a forward
  declaration, because that can be there twice (`HeaderFaults.TypedefTwice`); the parser makes none
  (`tools/makeheaders.c:1581-1589`, `tools/makeheaders.c:1995-2010`).
- HeaderRuns.HeaderProvides: speaks of the flags that a finished header sets; `HeaderContents.ForwardsExactly` and
  `HeaderComplete.NamesAreGiven` say which lines are then in it.
- HeaderContents.StandsBefore: goes one way. Where the condition of a line does call for the text, it depends on the
  calls that are already under way whether the line comes behind the text; `HeaderCycles.IncludeFollows` has a family of
  declarations for which it does.
- HeaderTypedefs.TypedefsOnce: goes one way for the same reason, and leaves out names with a declaration that is not
  tame.
- HeaderCalls.QuietCall: leaves out chains with conditions, texts that use other declarations, and texts that use their
  own name while the chain is given out in parts; what nested calls write comes in between there.
- HeaderUses.UsesExactly: leaves out texts in which a directive comes right behind a name, which is then not searched,
  and texts that end in a word right behind a name, which is then not read.
- HeaderPrecedence.HeaderInOrder: asks for ranks, which `HeaderContents.StandsBefore` does not, because declarations
  that need each other in full cannot all come first, and leaves out declarations that a condition depends on, and what a
  text needs of its own name.
- HeaderComplete.GivenExactly: is about declarations that are no typedefs or enumerations, of which a call gives out one
  at most, and whose texts use their own name in full, as those that the parser writes do, but for a macro whose body
  starts with a star.
- HeaderComplete.DeclaredIsGiven: leaves out names whose declarations need not be due together: where one that is not
  local to another file has no text, or one has a forward declaration and is not the only one. There a text can be lost,
  and the completing loop may start within a chain. It leaves out typedefs and enumerations that are not the only ones
  of their name.
- The parser of makeheaders (`ParseFile`, the `Process` functions), its files, options and reports, and the header of
  all declarations.
