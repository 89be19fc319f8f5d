# Market-data client: frame codec, gap detection and resend

This project models the core of a client for an exchange's market-data
feed. The client takes part in a two-phase session:

1. **Stream all.** The client sends the one-byte request `[1]`. It reads
   17-byte frames until the server stops sending. Each frame holds a 4-byte
   symbol, a 1-byte buy/sell indicator, and three big-endian signed 32-bit
   integers: quantity, price and packet sequence. The client keeps every
   decoded record. It also keeps the list of sequence numbers and the
   largest sequence number seen, which starts at -1.
2. **Resend.** After the stream ends, the client sorts the sequence numbers.
   It binary-searches them for every `i` in `1..max` to find the missing
   ones. For each missing sequence it sends `[2, selector]`, where the
   selector is the `(byte)` cast of the sequence number. It reads at most
   one reply frame per request and appends the decoded record.
3. **Output.** Finally the client sorts all records by packet sequence.

The network is replaced by inputs:

- Phase 1 is a sequence of frames: `frames`.
- Phase 2 is a sequence of optional frames: `replies`. Reply `k` answers
  request `k`. `None`, or running past the end of `replies`, means that
  read returned no data.
- The requests the client would send are returned as a log.

Modules:

- `Wrappers` (wrappers.dfy): `Option`, which stands in for C# `null`.
- `FrameCodec` (codec.dfy): the `StockTickerData` record, big-endian
  decoding, frame extraction, and the resend selector and request.
- `Collections` (collections.dfy): the parts of .NET `List<T>`/`ArrayList`
  the client uses. `List` is a class with a `seq` field that `Add` and
  `Sort` update in place. There is also the array's `BinarySearch`, with
  the same `~insertionPoint` result convention.
- `GapDetector` (gaps.dfy): `FindMissingPackets`, a method with the
  source's loop. It is proved against the specification function
  `Missing`.
- `Session` (session.dfy): the phase-1 accumulator loop (`StreamAll`), the
  resend loop (`RequestMissing`), and the whole run with the final sort
  (`RunClient`). Each is proved against specification functions (`Decoded`,
  `Recovered`, `Collected`, `MaxSequence`).
- `SessionProperties` (properties.dfy): end-to-end properties of a session.
- `Scenarios` (scenarios.dfy): small concrete sessions.

### Where the code and the intended protocol differ

The model follows the code as written. The protocol's own description
intends some things the code does not do:

- **No deduplication.** The intended protocol keeps one record per
  sequence, and a later copy replaces an earlier one. The code simply
  appends replies, so a resent record whose sequence is already present
  appears twice. For example, when the server answers each request with
  the record its selector names, a truncated selector that names a
  received sequence yields a duplicate (`SessionProperties.DuplicatesKept`).
- **Truncated selector.** The resend request carries only the low byte of
  the sequence number, because `GetMostSignificantByte` returns `bytes[3]`,
  which is `(byte)number`. So sequence 300 is requested as 44.
  - When the server answers each request with the record its selector
    names, a gap at a sequence of 256 or more is not filled
    (`SessionProperties.TruncatedSelectorLosesSequence`).
  - The client does not report such a gap as unrecoverable. Against
    such a server it just stays missing.
  - When every phase-1 sequence number is in 1..255 and the server answers
    each request with the record its selector names, the output covers
    exactly `1..max`
    (`SessionProperties.GapFreeWhenSequencesFitSelector`).
- **Frame length.** Extraction accepts any buffer of at least 17 bytes and
  ignores the bytes after the 17th (`FrameCodec.ExtractIgnoresTrailingBytes`).
- **Sequence numbers are not validated.** A zero or negative sequence
  number is kept as-is.

## Model

| member | source | states |
|---|---|---|
| FrameCodec.ToInt32BigEndian | client/Program.cs:79-82 | the result is the unsigned big-endian value of the four bytes at `i`, read as two's complement (equal modulo 2^32); it is negative exactly when the first byte has its top bit set |
| FrameCodec.Int32RoundTrip | client/Program.cs:79-82 | decoding the 4-byte big-endian encoding of any 32-bit integer gives back that integer |
| FrameCodec.BytesRoundTrip | client/Program.cs:79-82 | re-encoding the decoded value of any 4 bytes gives back those bytes, so the decoding is injective |
| FrameCodec.ExtractStockDataFromBuffer | client/Program.cs:59-76 | null comes back exactly when the buffer is null or shorter than 17 bytes; otherwise the record has a 4-byte symbol and a 1-byte indicator |
| FrameCodec.FrameRoundTrip | client/Program.cs:66-73 | extracting from the 17-byte frame of any well-formed record gives back that record |
| FrameCodec.FrameReencode | client/Program.cs:61-75 | for a buffer of 17 bytes or more, the frame of the extracted record is exactly the buffer's first 17 bytes, so no byte of the frame is lost or misplaced |
| FrameCodec.ExtractIgnoresTrailingBytes | client/Program.cs:61-73 | two buffers that agree on their first 17 bytes extract to the same record |
| FrameCodec.LowByte | client/Program.cs:36 | the `(byte)` cast of an integer is congruent to it modulo 256 |
| FrameCodec.SameLowByte | client/Program.cs:36 | two integers have the same `(byte)` cast exactly when they are congruent modulo 256 |
| FrameCodec.GetMostSignificantByte | client/Program.cs:29-39 | the returned byte is congruent to the number modulo 256, i.e. it is the least significant byte, not the most significant one |
| FrameCodec.SelectorIsExactOnlyForBytes | client/Program.cs:29-39 | the selector equals the number exactly when the number is in 0..255 |
| FrameCodec.SelectorsCollide | client/Program.cs:29-39 | two numbers get the same selector exactly when they differ by a multiple of 256 |
| FrameCodec.SelectorOf300 | client/Program.cs:29-39 | for 300 the method returns 44, while the true most significant byte is 0 |
| FrameCodec.ResendRequest | client/Program.cs:206-208 | a resend request is two bytes: the resend opcode 2, then a selector congruent to the sequence number modulo 256 |
| FrameCodec.ResendRequestNamesSequence | client/Program.cs:206-208 | the request is `[2, sequence]` exactly when the sequence is in 0..255 |
| FrameCodec.ResendRequestsCollide | client/Program.cs:206-208 | two sequences produce the same request exactly when they differ by a multiple of 256 |
| Collections.List.constructor | client/Program.cs:143-144 | a new list is empty |
| Collections.List.Add | client/Program.cs:175-176 | appends the element at the end and changes nothing else |
| Collections.List.Sort | client/Program.cs:223 | afterwards the list is ordered by the key and is a permutation of the old list |
| Collections.InsertionSortCorrect | client/Program.cs:45 | the reference sort `List.Sort` is built on returns an ordered permutation of its input |
| Collections.SortIsUniqueWhenKeysDiffer | client/Program.cs:223 | when the keys are pairwise distinct, every ordered permutation is the same sequence, so the unstable sort's result is determined |
| Collections.BinarySearch | client/Program.cs:49 | on a sorted list, a non-negative result is an index holding the value; a negative result `~p` means the value is absent and `p` is where it would be inserted |
| GapDetector.Missing | client/Program.cs:42-56 | the missing list holds exactly the numbers in `1..max` that are not received, in strictly ascending order |
| GapDetector.MissingIsTheGapList | client/Program.cs:47-53 | any strictly ascending list with exactly those elements equals `Missing` |
| GapDetector.MissingDependsOnlyOnElements | client/Program.cs:45-53 | two received lists with the same elements, such as the list before and after sorting, give the same missing list |
| GapDetector.FindMissingPackets | client/Program.cs:42-56 | leaves the received list sorted and a permutation of itself, and returns `Missing` of the original list and `max` |
| Session.MaxSequence | client/Program.cs:145-181 | the maximum is -1 or one of the sequences, and no sequence exceeds it |
| Session.Sequences | client/Program.cs:176 | the sequence list lines up with the record list, one sequence number per record at the same position |
| Session.ResendRequests | client/Program.cs:202-210 | there is exactly one resend request per missing sequence number, and the k-th request is the one for the k-th missing number |
| Session.RecoveredAtMostOnePerRequest | client/Program.cs:212-219 | phase 2 yields at most one record per resend request, because each request's reply is read and decoded once |
| Session.StreamAll | client/Program.cs:143-183 | after the loop the record list is the decoded stream, the sequence list is its sequence numbers in the same order, and the maximum is `MaxSequence` of them |
| Session.RequestMissing | client/Program.cs:202-221 | sends one resend request per missing sequence in order and appends the records decoded from the replies to the record list |
| Session.RunClient | client/Program.cs:137-223 | the request log is `[1]` followed by one resend request per phase-1 gap; the output is ordered by packet sequence and is a permutation of the phase-1 records followed by the recovered ones |
| Session.PermutationKeepsSequences | client/Program.cs:223 | reordering the records reorders their sequence numbers in the same way, so sorting keeps the multiset of sequence numbers |
| SessionProperties.EveryFrameDecodes | client/Program.cs:169-176 | every 17-byte frame of phase 1 becomes exactly one record, in arrival order |
| SessionProperties.RecoveredFollowSelectors | client/Program.cs:202-219 | when each reply answers its request, the recovered sequence numbers are exactly the selectors of the missing sequences, in order |
| SessionProperties.CollectedSequences | client/Program.cs:176-219 | when the server answers each request with the record its selector names, the collected sequence numbers are those of phase 1 followed by the selectors of the phase-1 gaps |
| SessionProperties.GapFreeWhenSequencesFitSelector | client/Program.cs:185-223 | when all phase-1 sequences are in 1..255 and the server answers each request with the record its selector names, the collected sequence numbers are exactly `1..max` |
| SessionProperties.TruncatedSelectorLosesSequence | client/Program.cs:206-219 | when the server answers each request with the record its selector names, a phase-1 gap at sequence 256 or more stays missing after the resend phase |
| SessionProperties.DuplicatesKept | client/Program.cs:216-223 | when the server answers each request with the record its selector names and a gap's selector names a sequence already received, that sequence appears at least twice in the output |
| Scenarios.OneHole | client/Program.cs:42-56 | with sequences 1, 2, 4, 5 received up to 5, the only gap is 3 |
| Scenarios.EmptyStream | client/Program.cs:145-185 | an empty stream has maximum -1 and no gaps, so no resend is sent and the session collects no records whatever the replies |
| Scenarios.HoleFilledByResend | client/Program.cs:169-223 | a stream 1, 3 whose resend for 2 is answered ends as records 1, 2, 3 in order |
| Scenarios.SequenceBeyondSelector | client/Program.cs:206-208 | the resend request for sequence 300 is `[2, 44]`, the same as the request for 44 |

## Left out

- TCP connection set-up, the wait loop on `Connected`, `Thread.Sleep`, `Flush` and `Close`: the network is replaced by input sequences.
- The stream-all request may be written two or three times (lines 138, 159, and 164 when `Poll` sees no data within 1 ms). The request log records it once, because the repeats depend on timing.
- Short reads: each `Read` is modelled as delivering a whole frame. A partial read that the C# code decodes together with stale bytes left in the reused buffer is not modelled.
- Exceptions: an exception in phase 1 leaves the missing list empty, and one in phase 2 skips the sort and the output. Neither is modelled.
- JSON serialisation, `File.WriteAllText`, console logging, `PrintObjectProperties` and the commented-out Node debugger launcher: output and diagnostics only.
- ASCII decoding of the symbol and the indicator: the model keeps the raw bytes.
- Boxing of `int` in `ArrayList`: the sequence list is a `List<int>`.
- GapDetector.FindMissingPackets: has no memory bound. For a very large `maxPacketSequence` with few records received, the C# gap list would need on the order of 2^31 boxed entries, so `Add` (client/Program.cs:51) runs out of memory first. The `catch` at client/Program.cs:192-195 swallows the exception, and phase 2 then runs with the empty list from client/Program.cs:146, sending no resend requests. The model instead returns the full gap list.
- Collections.List.Sort: promises only an ordered permutation. The arrangement of equal keys by .NET's unstable introsort is not modelled. When keys are distinct the result is nevertheless determined (`Collections.SortIsUniqueWhenKeysDiffer`).
