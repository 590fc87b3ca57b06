# A verified model of wissbi and of the runtime it carries

wissbi is a publish/subscribe pipe. A publisher tees every input message into one queue per branch;
producer threads take messages from the queues, frame them onto TCP connections and put them back when
a connection breaks. The repository also carries the C++ runtime the program is built on, libc++ and
libcxxrt. This project models the parts of both in which something can go wrong quietly, and proves what
they promise, for all inputs, all runs and all interleavings.

| files | what they model |
|---|---|
| `Delivery`, `DeliveryOrder`, `DeliveryProgress`, `Tee` | the publisher's delivery protocol: tee, queues, producers, requeueing, the pending counter; the order of delivery; that everything can arrive |
| `Framing`, `Tcp`, `LengthFraming` | the two message framings, over short reads and writes |
| `NumberTheory`, `PrimeLimits`, `NextPrime` | the prime search that sizes hash tables |
| `Conversion`, `Unicode`, `Utf8`, `Utf16`, `Utf8Utf16` | the UTF-8, UTF-16 and UCS-4 converters |
| `ChainTable`, `DebugDb`, `DebugDbCode` | the iterator-debugging database |
| `Handlers`, `Exceptions` | handler counts and references of native exceptions |
| `Gslice` | the enumeration of generalised slices |
| `Threads`, `SharedCount`, `Guard`, `CallOnce` | shared and weak counts, guards of local statics, `call_once` |
| `Wrappers`, `Counting` | what several of them share |

`dafny verify dfyconfig.toml` checks the whole project.

## How the source is represented

- Code that updates objects and buffers is a class or a method with loops: the framings, the tee, the
  prime search, the converters' driving loops, the debug database, the exception runtime, the gslice
  odometer. Each is proved against a specification on values, and the properties are proved of that.
- Threads are a state machine. One event is one atomic action of one thread: a queue operation, a write
  that takes some octets, an access to an atomic, a step under a mutex. A run is any sequence of enabled
  events of any number of threads. What the system answers (how much a write takes or a read returns,
  whether a queue takes a message, whether each single allocation finds memory, whether a body throws) is
  arbitrary.
- The converters share one loop, `Conversion.Drive`; what one pass through the body of each decides is a
  function of the rest of the input and the room left. The loop writes into a real buffer and leaves the
  rest of it alone.
- The 48 unrolled blocks of the innermost loop of the prime search are one loop over the table of their
  increments, in source order; wrap-around of `size_t` is written out, for both widths.
- Where the source writes past the end of a buffer, the model returns an outcome of its own and stops.
- Nodes of the debug database are identified by the address they are registered under, which is
  unique; bucket arrays are sequences of chains, reassigned as a whole.
- The octets of C++ `char` buffers are numbers from 0 to 255 in the framings and 8-bit vectors in the
  converters.

## Results that differ from what one might expect

- `utf8_to_utf16` compares the lead byte of every character with the limit, which the other decoders do
  not. It therefore agrees with decoding to UCS-4 and splitting on every input exactly for limits from
  0xF4 up (`Utf8Utf16.StraightIsComposedIff`), and for any limit exactly on the inputs in which that limit
  does not get in the way of a lead byte (`Utf8Utf16.StraightAgreesIff`).
- The encoders produce well-formed output for limits up to 0x10FFFF and not beyond
  (`Utf8.EncodeExact`, `Utf8.EncodeBeyond`, `Utf16.EncodeExact16`, `Utf16.EncodeBeyond16`). For a larger
  limit the output stands for the input exactly if no code point is beyond 0x10FFFF; of one that is, 22
  bits (in UTF-8) or 21 bits (in UTF-16) are written, and the output is well-formed exactly if these are
  within 0x10000 and 0x10FFFF, so that it then stands for another code point (`Utf8.EncodeMeans`,
  `Utf8.EncodeFaithful`, `Utf16.EncodeMeans16`, `Utf16.EncodeFaithful16`).
- Copies that the tee could not enqueue are never taken off the pending counter, so after the input has
  ended the counter is what is outstanding plus what was dropped (`Delivery.FinalCounter`). While the
  input runs, a producer may account for a copy before the tee has counted it, and the counter then
  stands at 2^32 - 1 (`Delivery.EarlyAccount`).
- The TCP receiver overruns its buffer exactly when a header it meets announces more than 4096 octets and
  more than 4096 follow (`Framing.OverrunExactly`, `Tcp.Reader.GetLoop`, `Framing.OverrunByFrame`).
- The decimal-length reader accepts negative and oversized lengths, and overruns its buffer on the same
  condition (`LengthFraming.Stream.Get`, `LengthFraming.BadLengths`). It does not notice a body that is
  cut short: it returns a message of the announced length whose end is whatever the buffer held.
- The iterator-debugging database is damaged by running out of memory in exactly two ways: a missing node
  loses the chain it was to head, if that had entries (`ChainTable.LoseExact`,
  `ChainTable.InsertWithoutMemory`), and a copy that cannot extend the list of its container leaves the
  iterator pointing to a container that does not list it (`DebugDb.HalfCopyBreaks`,
  `DebugDb.CopyWithoutMemory`). Every other failure leaves it intact (`DebugDb.HarmlessKeeps`,
  `DebugDbCode.Perform`).
- A `throw;` while the handled exception is already unwinding, as in a destructor that would catch it
  again, fails the assertion on the handler count (`Handlers.RethrowInCleanup`, `Exceptions.HeadCount`).
- A gslice whose sizes have a product beyond `size_t` is allocated by the wrapped product and filled by
  the true one, so it is overrun or silently empty (`Gslice.Init`, `Gslice.WrappedProducts`).
- A late compare-and-swap can leave the lock word of a guard set for good (`Guard.LockLeftSet`,
  `Guard.StaysStuck`); while the guard is not done the word is right (`Guard.LockIsHeld`), and afterwards
  bits 56 to 63 decide (`Guard.ZeroMeansDone`, `Guard.OneMeansNotDone`).
- Those bits are the first byte of the guard in memory on big-endian machines only. On a little-endian one
  the first byte is the low byte of the lock, which is set while a thread initialises, so compiled code
  that tests it before calling acquire, as section 3.3.2 of the Itanium C++ ABI allows, would then go past
  the initialisation (`Guard.FirstByteTest`, `Guard.SkippedEarly`).

## Model

| member | source | states |
|---|---|---|
| `Delivery.Keep` | src/connector.hpp:73-107 | every event of every thread keeps the whole invariant: wires end where their producers stand in a frame, copies are conserved per branch, inputs are accounted for, the counter is right |
| `Delivery.Conservation` | src/connector.hpp:88-107 | in every reachable state, for every branch and message, the copies accepted into the branch queue are those queued, plus those held by producers, plus those decodable from its connections |
| `Delivery.AtMostOnce` | src/io_policy/tee.hpp:17-27 | the subscribers of a branch never receive a message more often than it was read from the input since the branch exists |
| `Delivery.WireGrows` | src/io_policy/tcp.hpp:71-88 | a frame becomes decodable with its last octet and not before, whatever the sizes of the writes |
| `Delivery.PendingCounter` | src/pub.cpp:83-92 | in every reachable state the counter is queued plus in hand plus dropped, less attempts not yet posted, modulo 2^32 |
| `Delivery.FinalCounter` | src/pub.cpp:94-99 | after the input has ended, with fewer than 2^32 attempts, the counter is exactly what is queued, in hand or dropped |
| `Delivery.FinalZero` | src/pub.cpp:94-99 | when the final wait sees zero, nothing was dropped, the queues are empty and the connections of each branch carry exactly the inputs read since it exists |
| `Delivery.EarlyAccount` | src/connector.hpp:91-95 | a run after which the counter is 2^32 - 1 although nothing is outstanding |
| `DeliveryOrder.OrderedDelivery` | src/connector.hpp:73-107 | on a branch with any number of connections, on which no Put fails, the messages accepted are those taken and then the queue; each message taken went to one connection, and what is decodable from a connection and then in its producer's hand are the messages that went to it, in the order of acceptance |
| `DeliveryOrder.Fifo` | src/io_policy/sysv_mq.hpp:48-62 | over every run, failures included: what was in the queue of a branch and what the tee and failing producers put into it is what was taken out and what is left, in order of time |
| `DeliveryOrder.RequeuedLast` | src/connector.hpp:96-101 | a message put back after a failed Put is taken only after everything that was queued when it came back |
| `DeliveryOrder.FailsAnywhere` | src/connector.hpp:88-107 | a Put may fail at any octet of the frame; the connection then ends with that much of it and the message stands at the end of the queue |
| `DeliveryOrder.DeliveredInOrder` | src/connector.hpp:73-107 | in every run: what was put into a queue is what was taken and then the queue; each message taken went to one connection, and what is decodable from a connection and then in hand are the messages that went to it, in order, but for the last of a broken one |
| `DeliveryOrder.AcceptedInOrder` | src/io_policy/tee.hpp:17-27 | what a branch accepted and what it refused are the inputs read since it exists that it said yes and no to, in the order of the input |
| `DeliveryOrder.EndToEnd` | src/pub.cpp:83-99 | if a branch refused nothing and its one connection did not fail, what is decodable from it, then in hand, then queued are the inputs read since the branch exists, in order |
| `DeliveryOrder.RefusalMeaning` | src/io_policy/tee.hpp:17-27 | a queue that refuses is left as it was, and the tee goes on to the next |
| `DeliveryProgress.EverythingArrives` | src/connector.hpp:73-107 | from every reachable state some run ends with the input read, all queues empty and all producers idle, the subscribers having received each message as often as its branch accepted it, and the counter equal to what was refused |
| `DeliveryProgress.OneInput` | src/pub.cpp:83-92 | whatever the branches answer, a message that is read is offered to each of them once, the count is posted, and the input is ready for the next |
| `DeliveryProgress.ReadMeaning` | src/io_policy/tcp.hpp:59-69 | a read hands on the next octets of the stream and changes nothing else |
| `DeliveryOrder.SoleDelivery` | src/connector.hpp:73-107 | if the branch has one connection, the messages decodable from it, then the one in hand, then the queue, are exactly what the branch accepted, in order |
| `Tee.Tee.Put` | src/io_policy/tee.hpp:17-27 | every branch is attempted once whatever the others answer; exactly the accepting queues gain the message; both counts are those of this call |
| `Framing.ParseFrames` | src/io_policy/tcp.hpp:21-42 | framed messages followed by anything parse to those messages and what the rest parses to |
| `Framing.ParseSplits` | src/io_policy/tcp.hpp:30-42 | every octet stream is the frames of the messages it parses to and an unfinished rest |
| `Framing.CutAnywhere` | src/io_policy/tcp.hpp:30-42 | cutting a stream of frames anywhere leaves exactly the whole frames before the cut |
| `Framing.WholeBeforeBounds` | src/io_policy/tcp.hpp:30-42 | the number of whole frames before a cut is the largest whose frames fit |
| `Framing.CutAfter` | src/io_policy/tcp.hpp:21-28 | whole frames and a strict prefix of the next are such a cut |
| `Framing.OverrunExactly` | src/io_policy/tcp.hpp:36-37 | a stream overruns the message buffer exactly when, after whole frames that fit, a header announces more than 4096 octets and more than 4096 follow |
| `Framing.TakenIsParse` | src/io_policy/tcp.hpp:30-42 | without such a header the receiver takes every whole frame |
| `Framing.OverrunByFrame` | src/io_policy/tcp.hpp:36-37 | a frame of 5000 octets overruns the buffer, and its header with ten octets behind it does not |
| `Framing.PrefixIsRest` | src/io_policy/tcp.hpp:21-28 | a strict prefix of a frame holds no message |
| `Framing.FramesInjective` | src/io_policy/tcp.hpp:21-28 | different lists of messages have different streams |
| `Framing.OctetOrder` | src/io_policy/tcp.hpp:24-27 | the octets of a length stand in the order of their weight, and before the message |
| `Framing.ValueOfHeader` | src/io_policy/tcp.hpp:25-36 | the four-octet big-endian length is read back |
| `Framing.HeaderOfValue` | src/io_policy/tcp.hpp:25-36 | and every four octets are the header of the length they stand for |
| `Tcp.Writer.WriteAll` | src/io_policy/tcp.hpp:71-88 | whatever each write takes, true means all octets are on the wire in order, false that a strict prefix is |
| `Tcp.Writer.Put` | src/io_policy/tcp.hpp:21-28 | a successful Put appends exactly one frame, a failed one a strict prefix of it; empty messages are refused |
| `Tcp.Reader.ReadAll` | src/io_policy/tcp.hpp:59-69 | for every portioning of the stream, and whether it ends or fails: all requested octets, or what read returned when nothing more arrived; overruns the buffer exactly when more arrives and is asked for than fits |
| `Tcp.Reader.Get` | src/io_policy/tcp.hpp:30-42 | for every stream: a message exactly when a whole frame that fits is next, which is consumed; an overrun exactly when more than fits is announced and follows; otherwise nothing |
| `Tcp.Reader.GetLoop` | src/io_policy/tcp.hpp:30-42 | for every stream the receiver's loop yields exactly the messages of the whole frames, unless the buffer is overrun, and then those before that; and exactly when it is |
| `Tcp.Transfer` | src/io_policy/tcp.hpp:21-88 | from end to end, for every schedule of short writes and reads and every cut, the receiver gets exactly the messages whose whole frames precede the cut, in order |
| `LengthFraming.ExtractDecimal` | src/io_policy/length.hpp:12-24 | a decimal length followed by a space is extracted as that number, and extraction stops at the space, whatever follows |
| `LengthFraming.FramedExamples` | src/io_policy/length.hpp:25-32 | the length is written in decimal digits, then a space, then the message |
| `LengthFraming.Stream.Put` | src/io_policy/length.hpp:25-32 | exactly the framed message is appended; empty messages are refused |
| `LengthFraming.Stream.Get` | src/io_policy/length.hpp:12-23 | for every stream: when it fails, what it reads, what it returns for a body cut short, for which lengths the message is beyond the buffer and what length it then has (2^64 plus the size for a negative one), and for which the buffer is overrun |
| `LengthFraming.BadLengths` | src/io_policy/length.hpp:12-23 | a stream that starts with -5 is accepted, and one that starts with 5000 overruns the buffer exactly when more than 4096 octets follow |
| `LengthFraming.RoundTrip` | src/io_policy/length.hpp:12-32 | any list of non-empty messages with any octets is read back by repeated Get, and the Get after that fails |
| `NextPrime.Search` | 3rd_party/libcxx/src/hash.cpp:178-567 | 0 for 0, otherwise the least prime that is at least n, never above the limit of the overflow check; the error is raised exactly above that limit, and then no prime of that width is left |
| `NextPrime.SearchIn` | 3rd_party/libcxx/src/hash.cpp:178-567 | the same for any tables with the required properties |
| `NextPrime.TrialDivide` | 3rd_party/libcxx/src/hash.cpp:197-556 | division by the small primes and then the wheel decides primality of a candidate |
| `NextPrime.TrialDivideWheel` | 3rd_party/libcxx/src/hash.cpp:214-556 | the unrolled loop decides primality, and terminates |
| `NextPrime.LowerBound` | 3rd_party/libcxx/include/algorithm:4033-4051 | the first position whose entry is not less |
| `NextPrime.SmallPrimesExact` | 3rd_party/libcxx/src/hash.cpp:24-76 | the table holds exactly the primes up to 211 |
| `NextPrime.TablesGood` | 3rd_party/libcxx/src/hash.cpp:24-129 | both tables and the unrolled increments have the properties the search relies on: the residues are exactly those coprime to 210, and the increments lead from each to the next |
| `NextPrime.NothingBetween` | 3rd_party/libcxx/src/hash.cpp:214-556 | between consecutive wheel positions every number shares a factor with 210, so no divisor and no prime is skipped |
| `NextPrime.PrimeIsCandidate` | 3rd_party/libcxx/src/hash.cpp:133-150 | every prime above 7 is a potential prime |
| `NextPrime.NextWheelDivisor` | 3rd_party/libcxx/src/hash.cpp:214-556 | one block of the wheel rules out every divisor up to the next one |
| `NextPrime.FirstCandidate` | 3rd_party/libcxx/src/hash.cpp:190-196 | the first candidate skips no prime and does not pass any prime at or above n |
| `NextPrime.NextCandidate` | 3rd_party/libcxx/src/hash.cpp:559-566 | moving on from a composite candidate skips no prime and does not pass any larger prime |
| `NextPrime.LimitIsPrime` | 3rd_party/libcxx/src/hash.cpp:152-176 | the limit of the overflow check is prime and no larger prime fits the width |
| `PrimeLimits.Limit32IsPrime` | 3rd_party/libcxx/src/hash.cpp:152-163 | 0xFFFFFFFB is prime |
| `PrimeLimits.Limit64IsPrime` | 3rd_party/libcxx/src/hash.cpp:165-176 | 0xFFFFFFFFFFFFFFC5 is prime |
| `Conversion.Drive` | 3rd_party/libcxx/src/locale.cpp:2222-2334 | the loop of every converter: verdict and positions are those of the specification, exactly the units of the result stand in the buffer between the two output positions, and the rest of it is untouched |
| `Conversion.MeasureIsUsed` | 3rd_party/libcxx/src/locale.cpp:2336-2432 | a length function whose steps mirror a converter's counts exactly what the converter consumes |
| `Utf8.Utf8ToUcs4` | 3rd_party/libcxx/src/locale.cpp:2222-2334 | the decoder with its optional byte order mark, on a real buffer |
| `Utf8.Ucs4ToUtf8` | 3rd_party/libcxx/src/locale.cpp:2167-2220 | the encoder with its optional byte order mark, on a real buffer |
| `Utf8.Utf8ToUcs4Length` | 3rd_party/libcxx/src/locale.cpp:2336-2432 | for every input, limit and mode, the bytes the decoder would consume with that much room |
| `Conversion.ToInt` | 3rd_party/libcxx/src/locale.cpp:2431-2431 | the length as an `int`: the number itself below 2^31, and always congruent to it modulo 2^32 |
| `Utf8.BomMeaning` | 3rd_party/libcxx/src/locale.cpp:2230-2235 | the mark is the UTF-8 of U+FEFF, and exactly a text that starts with it is decoded after it, if it is to be consumed |
| `Utf8.ThereAndBack` | 3rd_party/libcxx/src/locale.cpp:2167-2334 | through the buffers, with or without a mark, every sequence of scalar values that is written comes back |
| `Utf8.DecodeExact` | 3rd_party/libcxx/src/locale.cpp:2222-2334 | ok exactly on the well-formed sequences of section 4 of RFC 3629 within the limit and the room, with exactly their code points as output |
| `Utf8.DecodedPrefix` | 3rd_party/libcxx/src/locale.cpp:2222-2334 | whatever the verdict, the consumed input is well-formed and the output stands for it |
| `Utf8.DecodePartial` | 3rd_party/libcxx/src/locale.cpp:2222-2334 | partial means the output is full or the input ends inside the next character |
| `Utf8.DecodeLongest` | 3rd_party/libcxx/src/locale.cpp:2222-2334 | with ample room, the input consumed is the longest prefix that is well-formed within the limit, and the verdict is partial exactly if the input ends inside the octets that the next lead byte announces |
| `Utf8.DecodeError` | 3rd_party/libcxx/src/locale.cpp:2222-2334 | error means that no continuation of the input has an acceptable character there |
| `Utf8.StepByGrammar` | 3rd_party/libcxx/src/locale.cpp:2236-2331 | the bit tests of one pass decide exactly the grammar of RFC 3629 and compute its values |
| `Utf8.EncodeExact` | 3rd_party/libcxx/src/locale.cpp:2167-2220 | for limits up to 0x10FFFF, ok exactly when the output is the UTF-8 of the input, within limit and room |
| `Utf8.EncodeStops` | 3rd_party/libcxx/src/locale.cpp:2181-2217 | error means that the next code point is a surrogate or beyond the limit, partial that it is neither and its octets do not fit; nothing refused is consumed |
| `Utf8.EncodeMeans` | 3rd_party/libcxx/src/locale.cpp:2181-2217 | for every limit, verdict and input, the output is well-formed exactly if the 22 bits kept of each code point beyond 0xFFFF are within 0x10000 and 0x10FFFF, and then stands for what was kept |
| `Utf8.EncodeFaithful` | 3rd_party/libcxx/src/locale.cpp:2181-2217 | so it is the UTF-8 of the input consumed exactly if that has no code point beyond 0x10FFFF |
| `Utf8.EncodeBeyond` | 3rd_party/libcxx/src/locale.cpp:2167-2220 | for every larger limit, an input whose output is not UTF-8 |
| `Utf8.Utf8OfUnique` | 3rd_party/libcxx/src/locale.cpp:2181-2217 | each scalar value has exactly one UTF-8 form |
| `Utf8.FourOctetsExample` | 3rd_party/libcxx/src/locale.cpp:2206-2216 | F0 9D 84 9E is U+1D11E |
| `Utf8.RoundTrip` | 3rd_party/libcxx/src/locale.cpp:2167-2334 | encoding and then decoding is the identity on all sequences of scalar values, both ends ok and consuming everything |
| `Utf16.Utf16ToUcs4` | 3rd_party/libcxx/src/locale.cpp:2675-2718 | the big-endian decoder (and the little-endian one) with its optional mark, on a real buffer |
| `Utf16.Ucs4ToUtf16` | 3rd_party/libcxx/src/locale.cpp:2630-2673 | the big-endian encoder (and the little-endian one) with its optional mark, on a real buffer |
| `Utf16.Utf16ToUcs4Length` | 3rd_party/libcxx/src/locale.cpp:2720-2760 | for every input, limit and mode, the bytes the decoder would consume with that much room |
| `Utf16.MarkMeaning` | 3rd_party/libcxx/src/locale.cpp:2683-2687 | the mark is the bytes of U+FEFF in the given order, and exactly a text that starts with it is decoded after it, if it is to be consumed |
| `Utf16.ThereAndBack16` | 3rd_party/libcxx/src/locale.cpp:2630-2718 | through the buffers, in both byte orders and with or without a mark, every sequence of scalar values that is written comes back |
| `Utf16.DecodeExact16` | 3rd_party/libcxx/src/locale.cpp:2675-2718 | ok exactly on well-formed UTF-16 in that byte order within limit and room, with exactly its code points as output |
| `Utf16.DecodePartial16` | 3rd_party/libcxx/src/locale.cpp:2675-2718 | partial means the output is full or the input ends inside a unit or after a high surrogate |
| `Utf16.DecodeError16` | 3rd_party/libcxx/src/locale.cpp:2675-2718 | error means that no continuation of the input has an acceptable character there |
| `Utf16.EncodeExact16` | 3rd_party/libcxx/src/locale.cpp:2762-2805 | for limits up to 0x10FFFF, ok exactly when the output is the UTF-16 of the input in that byte order |
| `Utf16.EncodeStops16` | 3rd_party/libcxx/src/locale.cpp:2630-2673 | error means that the next code point is a surrogate or beyond the limit, partial that it is neither and its units do not fit; nothing refused is consumed |
| `Utf16.EncodeMeans16` | 3rd_party/libcxx/src/locale.cpp:2630-2673 | for every limit, verdict and input, in both byte orders, the output is well-formed exactly if the 21 bits kept of each code point beyond 0xFFFF are within 0x10000 and 0x10FFFF, and then stands for what was kept |
| `Utf16.EncodeFaithful16` | 3rd_party/libcxx/src/locale.cpp:2762-2805 | so it is the UTF-16 of the input consumed exactly if that has no code point beyond 0x10FFFF |
| `Utf16.EncodeBeyond16` | 3rd_party/libcxx/src/locale.cpp:2630-2673 | for every larger limit, an input whose output is not UTF-16 |
| `Utf16.PairExample` | 3rd_party/libcxx/src/locale.cpp:2656-2669 | D834 DD1E is U+1D11E |
| `Utf16.RoundTrip16` | 3rd_party/libcxx/src/locale.cpp:2807-2850 | encoding and then decoding is the identity on all sequences of scalar values, in both byte orders |
| `Utf8Utf16.Utf8ToUtf16` | 3rd_party/libcxx/src/locale.cpp:1824-1943 | the direct decoder with its optional byte order mark, on a real buffer |
| `Utf8Utf16.Utf16ToUtf8` | 3rd_party/libcxx/src/locale.cpp:1670-1745 | the direct encoder with its optional byte order mark, on a real buffer |
| `Utf8Utf16.Utf8ToUtf16Length` | 3rd_party/libcxx/src/locale.cpp:2066-2165 | for every input, limit and mode, the bytes the direct decoder would consume with that much room |
| `Utf8Utf16.StraightExact` | 3rd_party/libcxx/src/locale.cpp:1824-1943 | ok exactly when input and output stand for the same code points, the output fits and no code point and no octet exceeds the limit |
| `Utf8Utf16.StraightPartial` | 3rd_party/libcxx/src/locale.cpp:1824-1943 | partial means the output is full, has room for one unit where a character of four octets is next, or the input ends inside a character |
| `Utf8Utf16.StraightError` | 3rd_party/libcxx/src/locale.cpp:1824-1943 | error means that no continuation of the input has an acceptable character there |
| `Utf8Utf16.StraightIsComposed` | 3rd_party/libcxx/src/locale.cpp:1824-1943 | with room for as many units as there are octets, the same verdict and consumption as decoding to UCS-4, and the output split into surrogate pairs |
| `Utf8Utf16.StraightIsComposedIff` | 3rd_party/libcxx/src/locale.cpp:1840-1842 | the limits for which that holds of every input are exactly those from 0xF4 up |
| `Utf8Utf16.StraightAgreesIff` | 3rd_party/libcxx/src/locale.cpp:1824-1943 | for every limit, the inputs for which that holds are exactly those whose longest well-formed prefix within the limit has no octet beyond it, nor a lead byte beyond it after that prefix where the input breaks off |
| `Utf8Utf16.StraightThenBytes` | 3rd_party/libcxx/src/locale.cpp:2630-2673 | serialising the direct output gives what the UTF-16 encoders make of the UCS-4 output |
| `Utf8Utf16.BackExact` | 3rd_party/libcxx/src/locale.cpp:1670-1745 | ok exactly when the input is UTF-16 and the output the UTF-8 of the same code points, within limit and room |
| `Utf8Utf16.BackPartial` | 3rd_party/libcxx/src/locale.cpp:1670-1745 | partial means that the input ends after a high surrogate or that the UTF-8 of the next character does not fit |
| `Utf8Utf16.BackError` | 3rd_party/libcxx/src/locale.cpp:1670-1745 | error means that no continuation of the input has an acceptable character there |
| `Utf8Utf16.BackAndStraight` | 3rd_party/libcxx/src/locale.cpp:1670-1943 | the two direct converters are inverse to each other |
| `ChainTable.Rehash` | 3rd_party/libcxx/src/debug.cpp:445-459 | moving every node to its new chain leaves the represented map unchanged |
| `ChainTable.Lookup` | 3rd_party/libcxx/src/debug.cpp:476-494 | walking one chain finds exactly what the map holds |
| `ChainTable.Unlink` | 3rd_party/libcxx/src/debug.cpp:185-209 | taking a node out of its chain removes exactly that entry |
| `ChainTable.HoldsOne` | 3rd_party/libcxx/src/debug.cpp:476-494 | a table represents one map only |
| `ChainTable.SharesChain` | 3rd_party/libcxx/src/debug.cpp:461-462 | two addresses share a chain exactly if their hash values agree modulo the number of buckets |
| `ChainTable.LoseHolds` | 3rd_party/libcxx/src/debug.cpp:462-470 | overwriting the head of a chain removes exactly the entries that share it |
| `ChainTable.LoseExact` | 3rd_party/libcxx/src/debug.cpp:462-470 | so the table still holds its map exactly when that chain was empty |
| `ChainTable.InsertWithoutMemory` | 3rd_party/libcxx/src/debug.cpp:170-178 | a table that loses an entry to a failed insertion |
| `DebugDb.Keep` | 3rd_party/libcxx/src/debug.cpp:117-322 | every operation keeps the index consistent: an iterator points to a container exactly when that container's list holds it, exactly once |
| `DebugDb.HarmlessKeeps` | 3rd_party/libcxx/src/debug.cpp:117-427 | every way an operation can end, failures included, keeps the index consistent, except a lost chain and a half-made copy |
| `DebugDb.HalfCopyBreaks` | 3rd_party/libcxx/src/debug.cpp:315-319 | a copy that stops for want of a longer list always breaks the index |
| `DebugDb.LostIteratorsBreak` | 3rd_party/libcxx/src/debug.cpp:461-471 | losing iterators breaks it exactly when one of them belongs to a container |
| `DebugDb.LostContainersBreak` | 3rd_party/libcxx/src/debug.cpp:169-178 | losing containers breaks it exactly when one of them has an iterator |
| `DebugDb.CopyWithoutMemory` | 3rd_party/libcxx/src/debug.cpp:315-319 | an index that a failed copy breaks, after which erasing the copy looks for it in vain |
| `DebugDb.ConsistentRun` | 3rd_party/libcxx/src/debug.cpp:117-427 | every run of operations that inserts fresh addresses and names registered containers, with any harmless failures among them, keeps the index consistent |
| `DebugDb.CopyMeaning` | 3rd_party/libcxx/src/debug.cpp:298-322 | after a copy the iterator belongs where the original does, at the end of its list and no longer on another; nobody else has moved and no other list has changed |
| `DebugDb.InsertMeaning` | 3rd_party/libcxx/src/debug.cpp:117-183 | a new iterator belongs nowhere, or to its container at the end of the list; a new container has an empty list; nothing else changes |
| `DebugDb.EraseMeaning` | 3rd_party/libcxx/src/debug.cpp:185-214 | an erased iterator is gone from the index and from its container's list, which keeps its order; nothing else changes |
| `DebugDb.EmptyMeaning` | 3rd_party/libcxx/src/debug.cpp:216-296 | an erased container is gone, an invalidated one has an empty list, and exactly their iterators belong nowhere afterwards |
| `DebugDb.SwapMeaning` | 3rd_party/libcxx/src/debug.cpp:367-394 | a swap exchanges the two lists in order and which of the two containers each iterator belongs to, and nothing else |
| `DebugDb.FailureMeaning` | 3rd_party/libcxx/src/debug.cpp:117-427 | what each failure leaves of the index |
| `DebugDbCode.Reserve` | 3rd_party/libcxx/src/debug.cpp:432-460 | there is room for one more entry exactly unless the table is full and cannot grow; a full table of n buckets grows to the least prime from 2n + 1 on, and no other does |
| `DebugDbCode.Database.InsertIterator` | 3rd_party/libcxx/src/debug.cpp:432-474 | how it ends for any memory, what it leaves, and that the database stays intact exactly unless a node is missing and its chain has entries |
| `DebugDbCode.Database.InsertContainer` | 3rd_party/libcxx/src/debug.cpp:139-183 | the same for containers |
| `DebugDbCode.Database.InsertIteratorInto` | 3rd_party/libcxx/src/debug.cpp:117-137 | how it ends for any memory and what it leaves; for want of a longer list the iterator stays registered without a container and the database intact |
| `DebugDbCode.Database.EraseIterator` | 3rd_party/libcxx/src/debug.cpp:185-214 | the tables follow the abstract operation |
| `DebugDbCode.Database.EraseContainer` | 3rd_party/libcxx/src/debug.cpp:270-296 | the tables follow the abstract operation; every pointer followed is to a registered iterator |
| `DebugDbCode.Database.Invalidate` | 3rd_party/libcxx/src/debug.cpp:216-233 | the tables follow the abstract operation; every pointer followed is to a registered iterator |
| `DebugDbCode.Database.CopyIterator` | 3rd_party/libcxx/src/debug.cpp:298-322 | how it ends for any memory and what it leaves; the database is damaged exactly by a lost chain or when the list it joins is full and cannot grow |
| `DebugDbCode.Database.SwapContainers` | 3rd_party/libcxx/src/debug.cpp:367-394 | the tables follow the abstract operation |
| `DebugDbCode.Database.AddTo` | 3rd_party/libcxx/src/debug.cpp:403-427 | the list gains the iterator at its end, and doubles its capacity when full; fails, before it changes anything, exactly when it is full and cannot grow |
| `DebugDbCode.Database.RemoveFrom` | 3rd_party/libcxx/src/debug.cpp:496-504 | the list loses its entry for the iterator and keeps its order |
| `DebugDbCode.Database.Comparable` | 3rd_party/libcxx/src/debug.cpp:356-365 | true exactly when both iterators point to one container |
| `DebugDbCode.Perform` | 3rd_party/libcxx/src/debug.cpp:117-504 | every operation, with its own answers for the three allocations: how it ends, what it leaves, and that the database stays intact exactly when no chain with entries was lost and no copy stopped half-way |
| `DebugDbCode.Replay` | 3rd_party/libcxx/src/debug.cpp:117-504 | over every run of operations, failures included, up to one that is not permitted or does harm, the tables hold exactly the consistent index the operations describe, with no more entries than buckets and none or a prime number of those |
| `Handlers.Keep` | 3rd_party/libcxxrt/src/exception.cc:1160-1296 | in well-nested programs, with `throw;` anywhere, the handlers of one exception stay next to each other and where its unwinding stands |
| `Handlers.RunBalance` | 3rd_party/libcxxrt/src/exception.cc:734-1296 | over every run and for every exception: its handles are the takes in its handlers and the copies less the drops, its open handlers the catches less their ends, its flights the throws and rethrows less the catches |
| `Handlers.HandleOutlives` | 3rd_party/libcxxrt/src/exception.cc:768-791 | a handle taken in a handler outlives it, until it is dropped |
| `Handlers.RethrowInCleanup` | 3rd_party/libcxxrt/src/exception.cc:800-843 | a run in which a cleanup rethrows the exception that is already unwinding, and the program ends |
| `Exceptions.Runtime.Throw` | 3rd_party/libcxxrt/src/exception.cc:734-749 | the new exception has no handlers and one reference, nothing else changes, and the fields follow the nesting of handlers |
| `Exceptions.Runtime.BeginCatch` | 3rd_party/libcxxrt/src/exception.cc:1160-1230 | the exception is at the head of the caught list with one more handler and a positive count, nothing else changes, and the fields follow the nesting of handlers |
| `Exceptions.Runtime.Rethrow` | 3rd_party/libcxxrt/src/exception.cc:800-843 | the fields follow the nesting of handlers; terminates exactly when no exception is caught, and its assertion fails exactly when the innermost one is in flight |
| `Exceptions.HeadCount` | 3rd_party/libcxxrt/src/exception.cc:827-835 | the innermost handled exception has a positive handler count exactly when it is not in flight |
| `Exceptions.Runtime.EndCatch` | 3rd_party/libcxxrt/src/exception.cc:1238-1296 | the same; the handlers' reference is released exactly with the last open handler of an exception that is not in flight |
| `Exceptions.Runtime.Release` | 3rd_party/libcxxrt/src/exception.cc:600-614 | an exception with one reference is destroyed and logged, one with more has one less, and no other is affected |
| `Exceptions.Runtime.CurrentPrimary` | 3rd_party/libcxxrt/src/exception.cc:768-777 | the innermost caught exception, with exactly one more reference, or none and no change |
| `Exceptions.Runtime.Increment` | 3rd_party/libcxxrt/src/exception.cc:779-785 | one more handle and one more reference, and nothing else |
| `Exceptions.Runtime.Decrement` | 3rd_party/libcxxrt/src/exception.cc:786-791 | one handle less; destroyed and logged exactly if that was the only reference, otherwise one reference less; an exception on the caught list is never destroyed by it |
| `Exceptions.GroupsOnce` | 3rd_party/libcxxrt/src/exception.cc:1176-1183 | each exception is on the caught list at most once |
| `Exceptions.Perform` | 3rd_party/libcxxrt/src/exception.cc:734-1296 | over every well-nested run, with `throw;` anywhere: how it ends, the caught list, handler counts equal in size to the open handlers and negative exactly in flight with handlers open, and each exception destroyed once, exactly when, by the calls made, every throw and rethrow of it was caught, every handler ended and every handle taken or copied was dropped |
| `Gslice.Init` | 3rd_party/libcxx/src/valarray.cpp:18-52 | as many slots as the product of the sizes modulo the width of `size_t`, hence one for each multi-index exactly when the product fits, slot k holding start plus the sum of stride times digit for the k-th multi-index; the loop stays within them exactly when the product fits or wraps to 0 |
| `Gslice.WrappedProducts` | 3rd_party/libcxx/src/valarray.cpp:22-25 | sizes with 2^64 + 2 multi-indices and two slots, and sizes with 2^64 and none |
| `Gslice.Carry` | 3rd_party/libcxx/src/valarray.cpp:32-49 | the inner loop moves the odometer to the next multi-index, or finds that there is none |
| `Gslice.ThreeDimensions` | 3rd_party/libcxx/src/valarray.cpp:18-52 | in three dimensions, slot i(mn) + jn + k holds start + ai + bj + ck |
| `Gslice.RankIsLexicographic` | 3rd_party/libcxx/src/valarray.cpp:30-50 | the position of a multi-index is its place in lexicographic order |
| `Gslice.RankOfDigits` | 3rd_party/libcxx/src/valarray.cpp:22-25 | every position below the product belongs to a multi-index within the sizes |
| `Gslice.DigitsOfRank` | 3rd_party/libcxx/src/valarray.cpp:30-50 | and to only one |
| `Gslice.BumpDot` | 3rd_party/libcxx/src/valarray.cpp:37-40 | one stride added and the wrapped ones taken back is the difference between neighbouring slots |
| `SharedCount.Keep` | 3rd_party/libcxx/src/memory.cpp:50-110 | every atomic access of every thread keeps the counts equal to the owners less one |
| `SharedCount.DestroyedOnce` | 3rd_party/libcxx/src/memory.cpp:56-95 | the object is destroyed at most once and exactly when the last strong owner has left, the control block at most once and only after that |
| `SharedCount.NoUseAfterDestruction` | 3rd_party/libcxx/src/memory.cpp:83-110 | owners still have their object, and threads inside a call still have the control block |
| `SharedCount.NeverRevived` | 3rd_party/libcxx/src/memory.cpp:97-110 | over every run, a count that has reached -1 stays there |
| `SharedCount.LockMeaning` | 3rd_party/libcxx/src/memory.cpp:97-110 | a lock that succeeds finds the object alive, one that gives up finds no strong owner |
| `SharedCount.OwnersMove` | 3rd_party/libcxx/src/memory.cpp:50-110 | which event gives or takes whose owner: copying and a successful lock give one, releasing takes one, handing over moves one |
| `SharedCount.MayCall` | 3rd_party/libcxx/src/memory.cpp:50-110 | a thread between calls may copy, release or hand over an owner that it has, and lock a weak one |
| `SharedCount.LockAlone` | 3rd_party/libcxx/src/memory.cpp:97-110 | a lock that nobody disturbs succeeds exactly if there is a strong owner, and otherwise changes nothing |
| `SharedCount.LockEnds` | 3rd_party/libcxx/src/memory.cpp:97-110 | every lock under way ends within three steps of its own, with the same answer |
| `SharedCount.ReleaseAlone` | 3rd_party/libcxx/src/memory.cpp:56-95 | the release of the last strong owner destroys the object, and the control block exactly if there is no weak owner |
| `SharedCount.NothingLeaks` | 3rd_party/libcxx/src/memory.cpp:56-95 | from every reachable state all owners can be given up, and then object and control block have each been destroyed once |
| `Guard.Keep` | 3rd_party/libcxxrt/src/guard.cc:121-162 | every access of every thread keeps the guard word in step with who holds it |
| `Guard.OneInitialiser` | 3rd_party/libcxxrt/src/guard.cc:121-142 | at most one thread is initialising |
| `Guard.CompletesOnce` | 3rd_party/libcxxrt/src/guard.cc:157-162 | initialisation completes at most once and does not begin again |
| `Guard.ZeroMeansDone` | 3rd_party/libcxxrt/src/guard.cc:123-142 | no acquire returns 0 before the initialisation has completed |
| `Guard.OneMeansNotDone` | 3rd_party/libcxxrt/src/guard.cc:138-141 | the last read makes acquire return 1 exactly when nothing has completed |
| `Guard.LockIsHeld` | 3rd_party/libcxxrt/src/guard.cc:130-137 | while the guard is not done, the lock word is set exactly while one thread holds it |
| `Guard.LockLeftSet` | 3rd_party/libcxxrt/src/guard.cc:130-141 | a run that ends with the guard done, every thread outside and the lock word set |
| `Guard.StaysStuck` | 3rd_party/libcxxrt/src/guard.cc:121-162 | from there the lock word stays set over every run |
| `Guard.AcquireGrants` | 3rd_party/libcxxrt/src/guard.cc:121-142 | an acquire that finds the guard neither done nor locked returns 1 after three steps of its own, holding the lock |
| `Guard.ReleaseCompletes` | 3rd_party/libcxxrt/src/guard.cc:157-162 | after the release the guard is done and unlocked |
| `Guard.AbortRetries` | 3rd_party/libcxxrt/src/guard.cc:148-152 | after an abort the guard is unlocked and not done, and the next acquire returns 1 |
| `Guard.DoneReturnsZero` | 3rd_party/libcxxrt/src/guard.cc:130-142 | once the guard is done every acquire under way returns 0 within three steps of its own, whatever the lock word holds |
| `Guard.NeverStuck` | 3rd_party/libcxxrt/src/guard.cc:121-162 | from every reachable state every thread can get out, and if it was in acquire, with the guard done by one initialisation |
| `Guard.FirstByteTest` | 3rd_party/libcxxrt/src/guard.cc:98-142 | the byte at the guard's address is set exactly when the guard is done on a big-endian machine, and exactly when the lock word is on a little-endian one: before completion, while a thread holds it |
| `Guard.SkippedEarly` | 3rd_party/libcxxrt/src/guard.cc:121-162 | a state of two threads in which one initialises, nothing has completed and that byte is set |
| `CallOnce.Keep` | 3rd_party/libcxx/src/mutex.cpp:215-248 | every action of every thread keeps flag, mutex and successes in step |
| `CallOnce.OneBody` | 3rd_party/libcxx/src/mutex.cpp:219-231 | at most one body runs at a time |
| `CallOnce.OneSuccess` | 3rd_party/libcxx/src/mutex.cpp:221-243 | at most one body ever succeeds, and none runs after it |
| `CallOnce.ReturnsAfterSuccess` | 3rd_party/libcxx/src/mutex.cpp:230-247 | every call that returns normally does so after that success |
| `CallOnce.CallRuns` | 3rd_party/libcxx/src/mutex.cpp:215-229 | a caller that finds the flag 0 and the mutex free runs its body after four steps of its own |
| `CallOnce.BodySucceeds` | 3rd_party/libcxx/src/mutex.cpp:229-233 | a body that succeeds sets the flag to all ones and its call returns |
| `CallOnce.BodyThrows` | 3rd_party/libcxx/src/mutex.cpp:236-243 | a body that throws sets it to 0 again and its call does not return normally |
| `CallOnce.CallPasses` | 3rd_party/libcxx/src/mutex.cpp:217-247 | with the flag all ones, callers and waiters return without running a body or changing anything else |
| `CallOnce.FirstCall` | 3rd_party/libcxx/src/mutex.cpp:215-248 | from every reachable state with flag 0 and the mutex free, a call runs its body and returns with the one success; if the body throws, the next caller runs its own |
| `CallOnce.OtherFlags` | 3rd_party/libcxx/src/mutex.cpp:211-212 | calls on other flags take the same mutex and give it back |
| `CallOnce.NeverStuck` | 3rd_party/libcxx/src/mutex.cpp:215-248 | from every reachable state every thread can get out, and if its call has not thrown, with a call returned and the one success |

## Left out

- Sockets, polling, signals, environment variables, key files and pid files: a connection is its octets and a queue is a sequence whose Put may fail.
- Empty messages and a failing queue Get in the producer: the delivery model takes non-empty messages of at most 4096 octets, queues that are not removed, and a requeueing Put that succeeds in the end.
- Fairness, timeouts and the one-second loops: the progress results say that a run exists that gets everything through, or how many steps of its own a thread needs, not that a scheduler takes them.
- Metrics, logging, subscription directories, the remaining io policies and the scripts: they would only add easy members.
- What happens after a buffer overrun, after an assertion of the source has failed and after the debug database has been damaged: the model says exactly when that is and goes no further.
- LengthFraming.Stream.Get: the position of the stream after a failed extraction is not modelled; the stream is no longer good then, and every later Get fails.
- Exceptions.Runtime.Rethrow: models the assertion as the source has it; with assertions compiled out the handler count would become positive instead.
- DebugDbCode.Database.FindC: asks that the container is registered, as the assertions of the source do.
- SharedCount.Keep: counts are unbounded integers; overflow of `long` is not modelled. The same holds for the handler count and the reference count of `Exceptions.Runtime.BeginCatch` and `Exceptions.Runtime.Increment`.
- Foreign and dependent exceptions, `uncaughtExceptions`, emergency buffers, the personality function and the unwinder itself: the unwinder is represented by which calls it makes.
- Weak memory: the thread models interleave atomic actions; reorderings that the source permits by reading plain variables are not modelled.
- The ARM variant of the guards, the `uint32_t` overloads of the UTF-16 converters, the rest of locale.cpp, and the C++ demangler.
