# vmars: verified model of the FIX latency probe

vmars watches TCP traffic without taking part in it. It cuts each connection's payloads into FIX messages,
parses them, writes a short summary of each request and response into a single-producer single-consumer ring
buffer, and a second thread matches requests with responses in a hash table to record latencies. This project
models that path, from the bytes of a packet to the recorded latency, and proves what each stage promises and
what the stages promise together: `ProbeRun.EndToEnd` for the capture thread, `ProbeRun.PacketsToLatencies`
from packets to recorded latencies under any schedule, `ProbeRun.SomeRunRecordsAll` that such a schedule exists.

The code works in place, and so does the model: the searcher, the parser loops, `fix_details_t`, the fragment
table, the capture context, the ring and the hash table are methods and classes with loops over arrays and
fields. Each method is proved equal to a function of its inputs and the old state; the whole-run theorems are
lemmas about those functions, and `ProbeRun.Capture`, `LatencyHandler.CalculateAll` and `TableRuns.ApplyAll` run
the real objects to the ends that those functions give.

## Modules

| file | what it holds |
|---|---|
| `Bytes.dfy`, `Bits.dfy`, `Options.dfy` | bytes and C strings, `strncpy`, little-endian integers; powers of two and the bitwise AND of naturals |
| `RoundUps.dfy` | `kroundup32`: bit smearing, proved to be the least power of two above, modulo 2^32 |
| `Probing.dfy` | triangular probing over power-of-two tables |
| `KHashFlags.dfy` | the packed two-bit flags on 32-bit words, refining one flag record a bucket |
| `KHash.dfy` | class `HashTable`: get, put, delete, clear, and the rehash inside the key and value arrays, its order included |
| `TableRuns.dfy` | whole runs of the table against a finite map |
| `Horspool.dfy` | class `Matcher`: the header search |
| `FixParser.dfy`, `FixCodec.dfy` | the parser as loops and as a function of the bytes; a printer, round trip, soundness, prefixes |
| `FixVerdicts.dfy` | which buffers the parser takes and which it refuses with which result, in terms of their bytes |
| `FixDetails.dfy`, `SummaryWriter.dfy` | `handle_tag`, the matching key, and the record written into the ring |
| `Selection.dfy` | which messages take part in the measurement, and with what summary, in terms of their fields on the wire |
| `FixStream.dfy`, `FixRuns.dfy` | what a packet does to a connection; whole runs, segmentation, isolation |
| `FixBalance.dfy` | the balance of bytes: no byte of any packet is reported or kept twice |
| `FixJoin.dfy` | connections joined late, packets without a header, and the life of a fragment |
| `FixSegments.dfy` | any packet that begins with a header, cut at its headers |
| `FixLitter.dfy` | packets with bytes between messages, the count in `buf_remaining`, and the memory behind a packet |
| `FragmentStore.dfy`, `FixProbe.dfy`, `ProbeRun.dfy` | the fragment table, the capture context packet by packet, and the probe end to end |
| `ProbeCounters.dfy` | what the counters of the probe count over any run |
| `SpscRing.dfy`, `SpscRingBuffer.dfy` | the ring as a transition system over both threads' steps; class `RingBuffer` refining it |
| `Latency.dfy`, `LatencyHandler.dfy` | matching as a function of table and message; the handler on the real table |
| `Settlement.dfy` | what any run of messages comes to, paired or not |
| `Sweep.dfy`, `SweepProgress.dfy` | the sweeping thread over many rings under every schedule; that it catches up |
| `Producing.dfy` | the producer among any steps of the consumer; a schedule that carries any given records |

## Where the code falls short

In these places the code does less than its purpose calls for. The model keeps them as they are and delimits
them exactly.

- A packet that completes a pending message, brings no whole header and ends in the first bytes of the next
  message loses those bytes. `FixStream.LosesPrefix` is the condition; `FixStream.ExtractExact` proves that a
  packet is handled right if and only if it does not hold, and `FixRuns.RightIffNoLoss` that a run ends right if
  and only if none of its packets met it: nothing that comes later makes up for the bytes lost. That rests on
  `FixBalance.ExtractBalance`, by which no packet reports or keeps a byte twice. `FixRuns.LossHappens` gives a
  whole family of two-packet inputs with a wrong run.
- Bytes between two messages of a packet stay in `buf_remaining`: `FixLitter.CountExcess` proves that the count
  is too large by exactly the bytes passed over. Every message is still reported (`FixLitter.AllReported`), but
  the fragment is wrong: `FixLitter.RightIffNoJunk` proves that parses and fragment are right if and only if
  nothing lies between messages and the bytes behind the last one survive the copy, whatever the memory behind
  the packet holds. While the last search meets no header there (`FixLitter.Quiet`), as many bytes from the end of
  the packet are stored as there were between messages (`FixLitter.LitteredPacket`, and `FixLitter.LitterHappens`
  for inputs).
- With the count too large, searches and parses may read behind the packet. The memory there is a parameter; a
  read behind that memory, or a write past the 4088 bytes of a fragment, is a fault. With nothing behind it, a
  packet of messages goes without a fault if and only if the windows of its last search skip over the end as far
  as the count claims and the bytes between and behind its messages fit a fragment (`FixLitter.AloneExact`,
  `FixLitter.QuietAlone`); eight bytes between messages always lead it behind the packet (`FixLitter.ReadsBehind`).
  A piece of one message writes past the fragment if and only if it is longer than 4088 bytes
  (`FixLitter.PieceFaultsIff`). `FixLitter.ReadsNoFurther` proves that a packet handled without a fault depends on
  no byte further on, and `FixLitter.NeverFaults` that any packet that fits a fragment is handled without one when
  the memory behind it is there.
- `vmars_spsc_rb_init` tests `!power && multiple` and so accepts sizes that are not powers of two.
  `SpscRing.InitAcceptsExactly` says which, and `Bits.MaskIsModIffPow2` that the mask is the remainder for
  powers of two only; the ring theorems therefore assume a power of two of at most 2^30.
- `kroundup32` wraps to 0 above 2^31. `RoundUps.RoundUp32` gives the result for every 32-bit input,
  `RoundUps.RoundUp32Exact` proves that it is a power of two not below the request exactly for requests from 1 to
  2^31, and `RoundUps.RoundUpWraps` that it is 0 above.
- A NUL byte in a component hides the rest of the key from the latency thread (`FixDetails.VisibleKey`,
  `FixDetails.NulCollides`). A bar in a component makes the key ambiguous: `FixDetails.ConfusedIffBar` proves that
  the key of four components without NUL belongs to other such components too if and only if one of its own, the
  last included, holds a bar; `FixDetails.BarCollides` is a collision. Where only the last may hold a bar,
  `FixDetails.KeyInjective` and `FixDetails.KeysAgreeIffVisible` say when two keys agree.

## Model

| member | source | states |
|---|---|---|
| Bits.MaskIsMod | src/khash.h:234-238 | masking with 2^k - 1 is the remainder modulo 2^k, for every x and k |
| Bits.MaskIsModIffPow2 | src/spsc_rb.c:115-123 | masking with n - 1 is the remainder for every position if and only if n is a power of two |
| Bits.IsolatedLowestBit | src/spsc_rb.c:22-25 | in w bits, v AND its two's complement is v if and only if v is a power of two |
| RoundUps.RoundUp32 | src/khash.h:175-177 | for every 32-bit x the five smears with wrap-around give the least power of two not below x, modulo 2^32 |
| RoundUps.RoundUp32Exact | src/khash.h:175-177 | the 32-bit result is a power of two that is not below x if and only if 0 < x <= 2^31 |
| RoundUps.RoundUpWraps | src/khash.h:175-177 | above 2^31 the result is 0 |
| RoundUps.RoundUpIsPow2 | src/khash.h:175-177 | the rounded value is a power of two in [x, 2x) |
| RoundUps.RoundUpIsLeast | src/khash.h:175-177 | no power of two that is at least x is smaller than the rounded value |
| RoundUps.SmearGrows | src/khash.h:176 | OR-ing x with x >> m turns m leading ones into 2m, or into all of them |
| Probing.ProbeStep | src/khash.h:238 | the incremental step is the closed form h + t(t+1)/2 modulo n |
| Probing.ProbesMeet | src/khash.h:51-55 | in a table of 2^k buckets, probes s < t with s + t + 1 < 2^(k+1) hit different buckets |
| Probing.ProbesDiffer | src/khash.h:51-55 | the first n probes are pairwise different |
| Probing.ProbesCover | src/khash.h:51-55 | every bucket is among the first n probes |
| Probing.FirstReturn | src/khash.h:237-240 | the sequence is back at its start after exactly 2n - 1 steps and at no earlier one |
| KHashFlags.SetIsDelTrueRefines | src/khash.h:165-171 | marking bucket i deleted in the packed words sets that bit and changes no other bucket |
| KHashFlags.SetIsEmptyFalseRefines | src/khash.h:169 | clearing the empty bit in the packed words changes that bit alone |
| KHashFlags.SetIsBothFalseRefines | src/khash.h:170 | clearing both bits makes bucket i live and changes no other bucket |
| KHashFlags.IsEitherRefines | src/khash.h:165-167 | the combined test is the disjunction of the two, and words of 0xaa bytes make every bucket empty |
| KHash.HashTable.constructor | src/khash.h:212-214 | a new table is valid, empty and has no buckets |
| KHash.HashTable.Get | src/khash.h:230-243 | the bucket of the key, with its value, and n_buckets exactly for absent keys; the wrap-around exit is never taken |
| KHash.HashTable.Look | src/khash.h:236-241 | the probe loop ends at the key or at an empty bucket, has passed neither, and never takes the wrap-around exit |
| KHash.HashTable.FirstEmpty | src/khash.h:281 | the unguarded probe of the rehash ends at the first empty bucket of the path |
| KHash.HashTable.KickOut | src/khash.h:270-292 | one old resident and all that its placement displaces end up placed: the kick-out chain ends, conserves every pair, and leaves fewer old residents |
| KHash.HashTable.MoveAll | src/khash.h:269-294 | no old resident is left, the keys held are those of the map being rehashed, and each is where the order of flags and residents alone puts it |
| KHash.HashTable.NewCount | src/khash.h:249-250 | the bucket count is the rounded request, at least 4 |
| KHash.NearestBound | src/khash.h:192-303 | the bound on occupied buckets is the whole number nearest to 0.77 of the buckets |
| KHash.HashTable.Resize | src/khash.h:244-306 | growing, shrinking or same size: contents, keys and size stay; it rehashes exactly when the size is below the new upper bound; then no tombstone is left, and flags and places of the keys are a function of those before |
| KHash.HashTable.MakeRoom | src/khash.h:310-318 | after the resize of put there is room, after a rehash the keys fill less than half of the buckets, and the contents are unchanged |
| KHash.HashTable.Put | src/khash.h:307-348 | the key is at the bucket returned, all other pairs stay, ret is 0 exactly for a present key, without a resize a new key goes to the last tombstone before the first empty bucket, or to that bucket, and with or without one all places afterwards are a function of those before and the key |
| KHash.HashTable.Del | src/khash.h:349-355 | a live bucket loses its key and nothing else changes; any other index changes nothing |
| KHash.HashTable.Clear | src/khash.h:223-229 | the map is empty and both counters are 0 |
| KHash.HashTable.Counts | src/khash.h:196 | size counts live buckets and keys, n_occupied the non-empty ones, at most upper_bound, which is below n_buckets |
| KHash.AbsentAfter | src/khash.h:237-241 | a search that reaches an empty bucket without meeting the key proves it absent |
| KHash.EmptyProbe | src/khash.h:281 | a table that is not full has an empty bucket on every probe path |
| KHash.MoveOne | src/khash.h:281-291 | placing the pair in hand keeps the conservation and reachability invariant and hands back the old resident with its value |
| KHash.RoomLeft | src/khash.h:281 | the new table holds no more entries than keys placed, so a pair in hand finds room |
| KHash.MovedOut | src/khash.h:299-303 | with no old resident left, the new flags describe a well-formed table with the same map |
| KHash.InsertOne | src/khash.h:336-346 | taking a vacant bucket on the path of an absent key keeps every other key reachable |
| KHash.VacancyUnique | src/khash.h:325-334 | the flags alone decide which bucket a new key takes |
| KHash.DeleteOne | src/khash.h:349-355 | a tombstone keeps every other key reachable |
| TableRuns.ApplyAll | src/khash.h:223-355 | for every sequence of get, put, delete and clear, all answers and the final contents are those of a finite map, and every key is where the operations on places alone put it |
| TableRuns.DeadBucketsDoNotMatter | src/khash.h:230-348 | flags and live keys fix where every key is, where a new one goes, and where all are after any run, rehashes included; what dead buckets hold does not |
| TableRuns.ValuesDoNotMatter | src/khash.h:230-348 | runs that differ only in the values put leave all keys in the same buckets |
| Horspool.Matcher.constructor | src/simpleboyermoore.c:5-18 | every shift is the distance from the last earlier occurrence of the byte to the end, at least 1 |
| Horspool.Matcher.Search | src/simpleboyermoore.c:20-42 | the leftmost occurrence, None exactly when there is none; told more bytes than there are, the result of the bytes it reads, or that it reads behind them |
| Horspool.SearchInSpec | src/simpleboyermoore.c:20-42 | an occurrence that the claimed length covers is found, the leftmost first; only without one can the search be led past the memory |
| Horspool.SearchStays | src/simpleboyermoore.c:29-39 | a search that stays inside the memory gives the same whatever lies behind it |
| Horspool.Matcher.SkipSafe | src/simpleboyermoore.c:29 | no occurrence starts where a shift jumps over |
| FixParser.CalculateChecksum | src/fixparser.c:14-42 | eight unsigned bytes at a time plus signed leftovers, masked, is the byte sum modulo 256 for every length |
| FixParser.FixParseMsg | src/fixparser.c:67-200 | the loops compute result, bytes consumed and callbacks as the parse function says, under all options, and whether they read behind the memory |
| FixParser.ParseInside | src/fixparser.c:67-200 | with the memory to hold the claimed length, the parse is that of those bytes |
| FixVerdicts.Verdicts | src/fixparser.c:67-200 | for every buffer and options, each result code if and only if the bytes are so: a foreign header, too few bytes for what BodyLength says or zero, no BodyLength, a wrong sum, a tag that is none, a value that does not end, or fields to the end; with the bytes consumed and the callbacks made |
| FixVerdicts.ReadIsParse | src/fixparser.c:124-199 | the fields, the start and the end told for a message whose sum is not refused are the only ones its bytes allow |
| FixVerdicts.ShortIffExtends | src/fixparser.c:79-118 | some bytes complete a buffer to a message if and only if it is too short, agrees with a header as far as it goes, and its BodyLength does not say zero |
| FixCodec.ParseStays | src/fixparser.c:67-200 | a parse that stays inside the memory gives the same whatever lies behind it |
| FixCodec.ParseMessageIn | src/fixparser.c:115-120 | a message at the start of the memory is parsed as itself, however many bytes are claimed |
| FixParser.ParseTags | src/fixparser.c:137-192 | the tag loop reports the fields of the message in order, up to the first error |
| FixCodec.ParseThen | src/fixparser.c:115-120 | whatever follows a framed message, the parse is the same and consumes exactly the message |
| FixCodec.PrefixTooShort | src/fixparser.c:79-118 | every proper prefix of a framed message is too short, wholly consumed, with no callback |
| FixCodec.PrefixFree | src/fixparser.c:79-118 | no framed message is a proper prefix of another |
| FixCodec.RoundTrip | src/fixparser.c:67-200 | parsing encode(fields) followed by anything succeeds, consumes exactly the encoding and reports exactly the fields and then tag 10 |
| FixCodec.FieldsTile | src/fixparser.c:137-192 | the reported fields cover the bytes as digits, '=', value, SOH with nothing skipped |
| FixCodec.Sound | src/fixparser.c:94-199 | a successful default parse: BodyLength counts the body, the fields tile the consumed bytes, the supplied CheckSum is the byte sum modulo 256 |
| FixCodec.RepairedCheckSum | src/fixparser.c:122-185 | the value reported for tag 10 under both options, put into the trailer, makes the message pass the default parse |
| FixDetails.FixDetails.HandleTag | src/fix.c:93-161 | one tag changes exactly the slot it names |
| FixDetails.LastTagWins | src/fix.c:118-156 | after all tags each text slot holds the value of the last field with one of its tags |
| FixDetails.LastNumberWins | src/fix.c:99-116 | message type, exec type and quote status are those of the last field that sets them |
| Selection.AtoiReads | src/fix.c:27-39 | atoi of a value is n if and only if the value begins with that number, behind white space and with or without a sign |
| Selection.Selected | src/fix.c:190-246 | a message takes part if and only if its last type of one or two characters is D, i, xr or xs (a NUL in front of a single one makes no difference); or 8 with a last ExecType that begins with 0; or b with a last QuoteStatus that reads as 0, or none |
| Selection.SummaryOnWire | src/fix.c:190-290 | a parse leads to a summary if and only if it succeeds and its fields take part; the summary has the time stamp, the type the fields name, and the key of their last values |
| Selection.OnTheWire | src/fix.c:377-406 | a buffer leads to a summary if and only if its bytes are a message with a right sum that reads as fields that take part |
| FixDetails.KeyAgreement | src/fix.c:199-292 | a response whose last fields swap the request's sender and target and repeat instruction and instrument has its key; without NULs, and without bars in the request, no other response has |
| FixDetails.KeyInjective | src/fix.c:267-290 | where only the last components may hold a bar, keys agree as bytes if and only if all four components are copied alike |
| FixDetails.ConfusedIffBar | src/fix.c:267-290 | a NUL-free quadruple shares its key with another one if and only if one of its components holds a bar |
| FixDetails.VisibleKey | src/fix.c:267-290 | the key that the latency thread reads is the components up to the first NUL, with bars between them, for all components |
| FixDetails.KeysAgreeIffVisible | src/fix.c:267-290 | where only the last components may hold a bar, the latency thread sees one key if and only if the components agree up to the first NUL |
| FixDetails.NulCollides | src/fix.c:267-290 | two requests that differ in all components but the first have one key if that one holds a NUL |
| FixDetails.BarCollides | src/fix.c:270-285 | two requests that differ in where a bar stands have one key |
| FixDetails.PlainKey | src/fix.c:377-406 | a message without NUL leads to a key without NUL |
| FixDetails.RecordFills | src/fix.c:253-290 | the bytes written fill exactly the length claimed |
| FixDetails.SummaryRoundTrip | src/fix.c:260-290 | the latency thread reads back the summary that was written, its key up to the first NUL |
| SummaryWriter.WriteSummary | src/fix.c:260-290 | the copies into a claimed record write exactly the pieces of the summary, in order |
| SummaryWriter.ProcessForLatencyMeasurement | src/fix.c:190-298 | a record is published exactly when the message takes part, as Selection.Selected says on its fields, and the record fits the ring; it is the serialised summary |
| FixStream.ExtractExact | src/fix.c:408-497 | per packet of a clean stream, fragment and parses are right if and only if no header prefix is lost |
| FixStream.ExtractAtBoundary | src/fix.c:466-496 | a packet that starts at a message boundary yields its whole messages and stores the rest |
| FixStream.ExtractInside | src/fix.c:428-464 | a packet that completes the pending message yields it and then its own messages |
| FixStream.ExtractLoses | src/fix.c:452-461 | in the excluded case the result is never right |
| FixBalance.ExtractBalance | src/fix.c:408-497 | for every fragment, packet and memory behind it: the bytes of the parses completed and of the fragment left are at most those of the fragment found and of the packet |
| FixBalance.LossIsMissing | src/fix.c:452-461 | a packet that loses a header prefix reports and keeps less than that |
| FixJoin.Joins | src/fix.c:436-443 | where nothing is stored, packets of eight bytes or more without a header change nothing in any run but the count of corruptions, one each |
| FixJoin.LeadIsLost | src/fix.c:428-443 | where nothing is stored, bytes in front of the first header are dropped and counted as one corruption |
| FixJoin.JoinsLate | src/fix.c:408-497 | a probe that joins a connection in mid-traffic delivers the clean stream that begins at the first header as if it had been there from its start, and counts what it dropped |
| FixJoin.CutAtHeader | src/fix.c:428-464 | with a fragment stored, a packet does the same as two that are cut in front of its first header |
| FixJoin.BeginsShort | src/fix.c:438-440 | where nothing is stored, a packet of less than eight bytes becomes the fragment |
| FixJoin.FragmentLife | src/fix.c:445-463 | in any run packets without a header join the fragment while it is too short; then it is parsed once, whatever the result, with the stamp of the packet that completed it, and is gone |
| FixJoin.Outgrown | src/fix.c:447-449 | packets without a header that do not fit behind the fragment are dropped, and it stays |
| FixSegments.AnyPacket | src/fix.c:466-496 | any packet that begins with a header: its segments, messages or not, are parsed in order; those too short become the fragment in turn, the others are reported, unread bytes are stored from the end, and it faults exactly when something stored does not fit; provided the count is right at its last segment, or that begins with a message and no header follows behind the packet |
| FixSegments.CutAtHeaders | src/fix.c:466-491 | every packet that begins with a header can be cut at its headers so |
| FixLitter.CountExcess | src/fix.c:466-491 | in every round position and count add up to their start plus the bytes left unconsumed so far: buf_remaining is too large by exactly the garbage passed |
| FixLitter.LitteredPacket | src/fix.c:466-496 | a packet of messages with any bytes between them whose last search meets nothing behind the packet: all messages are reported, and that many bytes from the end of the packet become the fragment; what follows the messages in the other case is open, see AllReported |
| FixLitter.AllReported | src/fix.c:466-496 | whatever lies behind the packet, the parses begin with all its messages or there is a fault; if the last search leads on, what follows is that of a loop from a header behind them |
| FixLitter.QuietAlone | src/simpleboyermoore.c:29 | the last search reads no byte behind the packet if and only if its windows skip over the end as far as the count claims |
| FixLitter.QuietBehind | src/fix.c:468-472 | memory without a header behind the packet keeps the last search from finding one |
| FixLitter.RightIffNoJunk | src/fix.c:466-496 | whatever lies behind the packet, parses and fragment are right if and only if nothing lies between messages and the bytes behind the last one fit a fragment and survive strncpy |
| FixLitter.LitterHappens | src/fix.c:470-496 | two clean messages with bytes between them: both are reported, and the end of the second is stored as a fragment |
| FixLitter.ReadsNoFurther | src/fix.c:468-477 | what a packet leads to without a fault does not depend on any byte behind the memory given |
| FixLitter.NeverFaults | src/fix.c:408-497 | any packet of at most 4088 bytes goes without a fault when memory behind it is there |
| FixLitter.AloneExact | src/fix.c:466-496 | with nothing behind it a packet of messages with bytes between them goes without a fault if and only if the last search stays inside and those bytes fit a fragment |
| FixLitter.ReadsBehind | src/fix.c:468-477 | eight bytes between messages always lead the loop behind the packet |
| FixLitter.PieceFaultsIff | src/fix.c:345-353 | a piece of a message overruns the fragment if and only if it is longer than 4088 bytes |
| FixStream.MessagesClean | src/fix.c:466-496 | on a clean stream the loop yields the whole messages and stores the rest, whatever lies behind the packet |
| FixStream.FindHeader | src/fix.c:424-472 | searching a clean stream from inside a message finds the next boundary once the next header is all there |
| FixRuns.RunExact | src/fix.c:408-497 | over a run without loss, fragments, parses and time stamps are the expected ones |
| FixRuns.Segmentation | src/fix.c:408-497 | however the stream is cut, the messages come out in order, once each, and the fragment is the bytes since the last boundary |
| FixRuns.SegmentationIndependence | src/fix.c:408-497 | two ways to cut the same bytes give the same parses and the same fragment |
| FixRuns.RightIffNoLoss | src/fix.c:452-461 | a run ends with the right parses and fragment if and only if no packet loses a header prefix, and then it was right after every packet |
| FixRuns.LossStays | src/fix.c:408-497 | bytes once lost are missing from parses and fragment at the end of every run that goes on |
| FixRuns.LossHappens | src/fix.c:452-461 | two messages cut in two packets this way lose bytes, and the run ends wrong |
| FixRuns.StampIsLastByte | src/fix.c:413-414 | in a run without loss each message carries the time stamp of the packet that held its last byte |
| FixRuns.SummariesIndependent | src/fix.c:190-298 | however the stream is cut, the same summaries are offered in the same order up to time stamps |
| FixRuns.Isolation | src/fix.c:71-76 | in any interleaving each connection ends with the parses and the fragment of its packets alone |
| FixRuns.RunsIffAllRun | src/fix.c:408-497 | an interleaving runs through if and only if every connection would alone |
| FragmentStore.FragmentStore.GetFragment | src/fix.c:300-318 | the fragment of the connection, None exactly when there is none |
| FragmentStore.FragmentStore.PutFragment | src/fix.c:320-354 | this connection's fragment becomes the copy of the data and no other changes |
| FragmentStore.FragmentStore.RemoveFragment | src/fix.c:356-375 | this connection's fragment is gone and no other changes |
| FixProbe.CaptureContext.TryParse | src/fix.c:377-406 | the parse, the details its tags leave, and the one counter it moves |
| FixProbe.CaptureContext.MessageRound | src/fix.c:466-491 | one round on the real objects: search, parse, summary or stored fragment, as the specification's round says |
| FixProbe.CaptureContext.ExtractMessages | src/fix.c:466-496 | the message loop on the real objects does what its specification says, and faults exactly when that does |
| FixProbe.CaptureContext.ExtractLead | src/fix.c:428-464 | the lead of a packet starts, extends or completes the fragment, or counts as corrupt, as FixJoin says of runs |
| FixProbe.CaptureContext.ExtractFixMessages | src/fix.c:408-497 | fragment table, counters and ring after a packet are those the specification gives, and it faults exactly when that does; room for the next packet stays |
| FixProbe.AdvanceTwice | src/fix.c:408-497 | two partial advances of a connection within a packet compose into one |
| ProbeRun.Capture | src/fix.c:408-497 | the capture context run over any interleaving of packets, the consumer at rest, ends in the state of the specification's run |
| ProbeRun.ProbedIsRunAll | src/fix.c:408-497 | that run's fragments and offered records are those of the connections' runs, wherever the consumer's head is at each packet |
| ProbeRun.EndToEnd | src/fix.c:408-497 | on interleaved clean streams the probe never faults, completes exactly the messages received, keeps the rest, and publishes exactly their records if at each packet, as the consumer then stands, the ring has room |
| ProbeRun.StillRoom | src/spsc_rb.c:112-149 | a ring with room for all records at the start has it at each packet even if the consumer rests |
| ProbeRun.CleanReadsBack | src/fix.c:260-290 | every record that clean streams lead to reads back as its summary |
| ProbeRun.RecordsOnWire | src/fix.c:190-290 | a stamped parse leads to one record if and only if it succeeds and its fields take part; seconds, nanoseconds, type, length and key stand in it each in its place |
| ProbeCounters.CountersTell | src/fix.c:377-406 | after any run each counter has grown by the number of parses with its results, and the last by the corruptions met |
| ProbeCounters.CorruptSplits | src/fix.c:441-442 | the corruptions of an interleaving are those that each connection would meet alone |
| ProbeRun.PacketsToLatencies | src/latency_handler.c:158-172 | clean streams whose messages pair up: once the rings have carried their records, under any schedule the latency thread comes to have recorded exactly the latencies of the pairs |
| ProbeRun.SomeRunRecordsAll | src/latency_handler.c:158-172 | when each record fits the first ring, some schedule makes the rings carry exactly the records offered and the thread record exactly the latencies of the pairs |
| Producing.PublishesAsWritten | src/spsc_rb.c:112-166 | claim, fill and publish with any consumer steps in between publish the bytes written, refused only if they did not fit at the start |
| Producing.SomeSchedule | src/spsc_rb.c:112-207 | from the start, some schedule makes the rings carry exactly any given records that fit the first ring |
| SpscRing.IndexAgreement | src/spsc_rb.c:115-123 | the producer's 64-bit mask and the consumer's int32-truncated mask both give position modulo capacity, for every position |
| SpscRing.PowerOfTwoTest | src/spsc_rb.c:22-25 | the 64-bit test holds exactly for powers of two |
| SpscRing.InitAcceptsExactly | src/spsc_rb.c:93-98 | init accepts powers of two and every size that is no multiple of the page size; it is right exactly for the rest |
| SpscRing.InitGap | src/spsc_rb.c:95-98 | a size of 3 is accepted, and for it mask and remainder differ |
| SpscRing.StepKeeps | src/spsc_rb.c:112-207 | every step of either thread keeps positions, histories and unread bytes in agreement |
| SpscRing.EveryInterleaving | src/spsc_rb.c:112-207 | under every interleaving consumed is a prefix of published, head_cache <= head <= tail_cache <= tail <= head_cache + capacity, and bytes being written never alias unreleased ones |
| SpscRing.ReadsArePublished | src/spsc_rb.c:168-190 | at any point of any interleaving what the consumer has read of a record is what was published |
| SpscRing.HonestRefusal | src/spsc_rb.c:127-133 | the first refusal of claim is exactly for records longer than the ring; the cached head never admits what does not fit |
| SpscRing.HonestRefusalAtHead | src/spsc_rb.c:135-140 | the second refusal is exactly for records that do not fit beside the freshly loaded head |
| SpscRing.NullMeansEmpty | src/spsc_rb.c:175-182 | poll returns NULL exactly when everything published has been consumed |
| SpscRingBuffer.RingBuffer.Claim | src/spsc_rb.c:112-149 | the call is the transition system's three steps, and succeeds exactly when the record fits |
| SpscRingBuffer.RingBuffer.Publish | src/spsc_rb.c:151-166 | the call is the publishing step |
| SpscRingBuffer.RingBuffer.Poll | src/spsc_rb.c:168-190 | the call is the polling steps |
| SpscRingBuffer.RingBuffer.ReadRecord | src/latency_handler.c:166-168 | the bytes read are the oldest unconsumed record |
| SpscRingBuffer.RingBuffer.Release | src/spsc_rb.c:192-207 | the call is the releasing step |
| Latency.Conservation | src/latency_handler.c:79-121 | messages = table growth + 2 * latencies + ignored, over every run, and each record stays under its own key |
| Latency.RunFactor | src/latency_handler.c:79-121 | a run splits into what happens to one key and what happens to the others |
| Latency.OrderIndependence | src/latency_handler.c:49-121 | with one request and one matching response a key, every order records the same latencies, the instants of the responses minus those of the requests in nanoseconds, and empties the table |
| Latency.ClockLaws | src/latency_handler.c:49-55 | the time difference is that of the instants in nanoseconds; intervals add up, also across the turn of a second |
| Latency.ComplementIsWire | src/latency_handler.c:34-77 | the classes of the code are the wire types: D and 8, i and b, xr and xs, the first of each a request |
| Settlement.AnyRun | src/latency_handler.c:79-121 | after any run, what is stored under a key is the earliest of its messages that none has completed, as it came; what is recorded for the key are the intervals from each waiting message to the first that completes it |
| Settlement.AnyRunRecords | src/latency_handler.c:79-121 | all that any run records are these intervals, over all keys |
| Settlement.Repeated | src/latency_handler.c:86-107 | a repeated request changes nothing: the one interval recorded is from the first of the key to the one that completes it |
| LatencyHandler.LatencyHandler.CalculateLatency | src/latency_handler.c:79-121 | on the real table: contents and histogram after the call are those of the matching function, whose runs Settlement settles; room for the next call stays |
| LatencyHandler.CalculateAll | src/latency_handler.c:79-121 | a whole run on the real table ends in the table and the latencies of the matching run |
| LatencyHandler.LatencyHandler.Remember | src/latency_handler.c:108-120 | a put after a failed get takes a fresh or tombstone bucket, one that held no key unless a rehash came first, and adds exactly the record |
| Sweep.EverySchedule | src/latency_handler.c:158-172 | under every schedule what is handed over from each ring is, in order and once each, the first records published there, at most 19 a visit, and the table is theirs |
| Sweep.ConsumeKeeps | src/latency_handler.c:163-171 | each step of the thread keeps that, also when it polls a record it neither processes nor releases |
| Sweep.CaughtUpLatencies | src/latency_handler.c:158-172 | a thread that has caught up on paired messages has recorded the latencies of the pairs, whatever schedule and rings |
| SweepProgress.VisitArriving | src/latency_handler.c:160-171 | a visit hands over exactly the next min(19, p) of the p records left in its ring, in order, and goes on to the next ring |
| SweepProgress.VisitRing | src/latency_handler.c:160-171 | from any poll the visit ends after handing over what the limit still allows; a record polled at the limit stays |
| SweepProgress.CatchesUp | src/latency_handler.c:158-172 | from every reachable state, once producers rest, the thread comes to have handed over exactly what was published |
| SweepProgress.AnyScheduleSameLatencies | src/latency_handler.c:158-172 | for paired messages, every schedule and every distribution over rings, the thread comes to have recorded the latencies of the pairs |

## Left out

- Packet capture, sockets, memory mapping, thread affinity, signals, option parsing: nothing but plumbing.
- The double mapping of the ring buffer is its effect only: address x is byte x modulo the capacity.
- Weak memory: loads and stores of positions are sequentially consistent steps, as their names say.
- Integer overflow of BodyLength, tag digits, `atoi`, lengths and 64-bit positions: these are unbounded. The 32-bit truncation of ring positions and the `size_t` masks are modelled.
- Allocation failure, and hash tables above 2^30 buckets; `0.77 * n + 0.5` is `(77 * n + 50) / 100`.
- TableRuns.ApplyAll: bounds keys plus operations by 2^27, which keeps the table below the 2^29 buckets that Put asks for.
- KHash.HashTable.Put: asks for at most 2^29 buckets before the call, so that doubling stays within 2^30; the C code would go on to 2^31.
- Hash functions: any function of the key. Keys are values, so equal keys hash alike.
- KHash.HashTable.Get: buckets are indexed with `% n` where the code masks with `n - 1`; Bits.MaskIsMod is the bridge. Flags are records in the class; KHashFlags refines them to words.
- Fragments are stored as byte values rather than in heap buffers that the table points to, and the table exists from the start where the code allocates it on first use; details hold values instead of pointers into the packet.
- FixProbe.CaptureContext.ExtractFixMessages: leaves the state after a fault open, since the C code has then read behind the memory at hand or written past a fragment; the per-message-type counters are not kept, the four parse counters are.
- ProbeRun.Capture: runs the capture thread alone, so the consumer's head stays where it is; ProbeRun.ProbedIsRunAll and ProbeRun.EndToEnd take the consumer's side at each packet as it comes, and Producing interleaves the two within a record.
- FixLitter.LitteredPacket: assumes that the last search meets nothing behind the packet; otherwise the loop goes on in memory that is none of the packet's, and FixLitter.AllReported and FixLitter.RightIffNoJunk say what still holds.
- FixSegments.AnyPacket: assumes the same when bytes were left unread before the last segment, and that the last segment then begins with a message; else its parse is told to read behind the packet.
- FixParser.FixParseMsg: `startp` and `endp` are recorded in the outcome instead of called; the probe passes null for both.
- The histogram is the list of values passed to it; percentiles, gauges and the reset every second are not modelled.
- Sweep: a record too short to be a summary counts as an empty one; the probe never writes such a record.
- The benchmark, the counter thread and the statistics client: they take no part in the path from packet to latency. The remaining macros of the hash table: the program does not use them.
