# TN NET: a verified model

TN NET is a small TCP/IP stack for micro-controllers. This project models six of its pieces in
Dafny and proves what they are for.

1. **The Internet checksum over mbuf chains** (`tn_net/in4_cksum.c`). The code adds 16-bit words in
   a 32-bit integer, carries half a word from one buffer to the next, forces alignment by
   multiplying the sum by 256 and undoing that later, unrolls its loops and folds the sum only now
   and then. `InCksum.In4Cksum` has the same loops and returns exactly the checksum of section 1 of
   RFC 1071. `CksumTheorems` has what follows for its users: fragmentation and byte order do not
   matter, what a sender stores a receiver accepts, which corruptions are detected, and that a packet
   for another host, protocol or length does not verify.
2. **TCP reassembly** (`tn_net/tn_tcp_input.c`). Segments arrive in any order, duplicated, cut up in
   other ways, with 32-bit sequence numbers that wrap around, and memory may run out at any of them.
   `TcpReass` and `TcpInput` follow the trimming to the window, the reassembly queue and the delivery
   to the socket; `TcpRuns` has whole runs. For every run, what is delivered is the longest prefix of
   the peer's stream that the segments kept so far allow, and it is known exactly when the code
   reports the end of the stream too early.
3. **IP reassembly** (`tn_net/tn_ip_input.c`). Fragments of a datagram, as its reassembly entry keeps
   them; exactly which arrivals give the datagram back, and which give back a part of it.
4. **Intrusive queues** (`tn_net/queue.h`). Tail queues, circular queues, lists, simple queues and
   the search loop of singly-linked lists, as updates of link fields in place, each against the
   sequence it represents, with the backward walk of tail queues through the head/entry cast.
5. **The bounded formatter** (`demo_pc/http_test_1/tn_sprintf.c`). Scanner, number printer, field
   padding and the sink with its sticky failure, against unlimited rendering; what every conversion
   prints, which arguments it takes, and that numbers read back.
6. **The multiply-with-carry generator** (`demo_pc/tcp_test_1/rnd.cpp`).

## How it is modelled

| file | content |
|---|---|
| `Machine.dfy` | machine integers |
| `OnesComplement.dfy`, `MbufChain.dfy`, `InCksum.dfy`, `CksumTheorems.dfy` | checksum |
| `SeqSpace.dfy`, `TcpReass.dfy`, `TcpInput.dfy`, `TcpRuns.dfy` | TCP data path |
| `IpReasm.dfy` | IP reassembly |
| `Sequences.dfy`, `Links.dfy`, `TailQueue.dfy`, `CircleQueue.dfy`, `SingleQueues.dfy` | queues |
| `FormatSpec.dfy`, `Formatter.dfy`, `Printf.dfy`, `FormatScan.dfy`, `FormatTheorems.dfy`, `FormatMeaning.dfy` | formatter |
| `Mwc.dfy` | generator |

- An mbuf is its data bytes, the address they start at and the next mbuf; words are two bytes read
  in the CPU's order. `sum` is kept as a 32-bit pattern, as REDUCE reads it, together with the
  largest value it has held; the signed `int` of the code does not overflow while that is at most
  INT_MAX. That is so for every packet with a payload of up to 65025 bytes; for each longer payload
  there is a packet for which it is not (`InCksum.In4Cksum`, `InCksum.SumOverflows`).
- A head and an element of a queue are both a pair of pointers (first/last, next/prev). A pointer
  to a pointer designates the `next` slot of the pair it points into. A class holds the head and the
  ghost sequence `ring`: the head, then the elements.
- The reassembly queue is a field of type `seq`; ghost positions tie sequence numbers to the stream
  that the peer sends.
- Variable arguments of the formatter are a sequence of 32-bit words and readable memories. Nothing
  is required of the format except its terminating NUL, and of the arguments that they are those
  that the format asks for.
- Where a comment of the repository and its code disagree, the model follows the code.
  - The comment of `rnd.cpp` announces the period of a multiply-with-carry generator; the stored
    carry is not that of one (`Mwc.CarryExactIff`, `Mwc.CarryNotExact`), and no number of draws is a
    period for all seeds (`Mwc.NoCommonPeriod`).
  - `tn_tcp_input.c:678-679` says that a FIN beyond the window is dropped; the code drops it from a
    variable that it overwrites before use. `TcpInput.Arrive` has the exact condition under which the
    end of the stream is then reported too early, `TcpRuns.FinCutOffReported` and
    `TcpRuns.QueuedFinCutOffReported` have an input for each of the two ways in which it happens.
  - `tn_sprintf.c:229-230` says that a string with a precision need not be terminated; the byte at
    the precision is still read. `Printf.ReadableExact` has the exact condition,
    `Printf.CommentPromisesTooMuch` an input.

## Model

| member | source | states |
|---|---|---|
| OnesComplement.OnesSumIsWeigh | tn_net/in4_cksum.c:85-86 | the end-around-carry sum of the 16-bit words of any byte string, odd tail padded with zero, is the fold of the plain integer sum of its bytes weighed by position |
| OnesComplement.WeighShift | tn_net/in4_cksum.c:172-173 | multiplying by 256 the sum of bytes read one position off gives, up to end-around carry, the sum with every byte in its true position |
| OnesComplement.CanonShiftTwice | tn_net/in4_cksum.c:205-208 | shifting by 8 twice changes neither the residue modulo 65535 nor whether the sum is zero |
| InCksum.ReduceIsCanon | tn_net/in4_cksum.c:85-86 | REDUCE of any 32-bit pattern is the 16-bit end-around-carry representative, zero only for zero |
| InCksum.DetourInvisible | tn_net/in4_cksum.c:170-218 | shift by 8, misaligned words, shift by 8 again: same residue and same zero status as the bytes at their true stream positions |
| InCksum.AddUnrolled | tn_net/in4_cksum.c:183-197 | the loops unrolled 16 and 4 words at a time add exactly the words they pass, leave fewer than 8 bytes, and wrap nowhere |
| InCksum.AddTail | tn_net/in4_cksum.c:200-204 | folding and adding the last words gives the same representative as adding all the words; mlen ends at -1 exactly when a byte is left |
| InCksum.SwapOut | tn_net/in4_cksum.c:205-218 | the byte held since the odd address is paired with the last one or left waiting as the first byte of a word |
| InCksum.AddRunSwapped | tn_net/in4_cksum.c:170-218 | a run of bytes at an odd address contributes its weighed sum, less the byte left waiting |
| InCksum.AddRun | tn_net/in4_cksum.c:168-220 | the same at any address, within the accumulator bound |
| InCksum.AddAfterHeld | tn_net/in4_cksum.c:145-159 | the first byte of a buffer completes the word begun in the last one, and the rest of the run is added in its true position |
| InCksum.AddBuffer | tn_net/in4_cksum.c:144-220 | one buffer, with or without a byte waiting from the last: mlen == -1 afterwards exactly when an odd number of payload bytes has been consumed, and sum plus waiting byte account for all of them |
| InCksum.SkipOffset | tn_net/in4_cksum.c:131-138 | the skipped buffers are exactly the leading off bytes |
| InCksum.AddPayload | tn_net/in4_cksum.c:140-221 | over the whole chain, empty buffers included, the sum accounts for as many of len bytes as exist from off on |
| InCksum.AddPseudoHeader | tn_net/in4_cksum.c:125-128 | the ten words of the pseudo header are summed without wrapping |
| InCksum.PseudoHeaderSum | tn_net/in4_cksum.c:113-128 | the words of the pseudo header: the protocol, the length in network order, and bytes 12 to 19 of the IP header, no others |
| InCksum.CheckedWords | tn_net/in4_cksum.c:88-234 | the checksum in words: protocol, length, source and destination address, and the payload, folded and complemented |
| InCksum.In4Cksum | tn_net/in4_cksum.c:88-234 | for every chain, protocol, offset and length up to 65535 the result is exactly the RFC 1071 checksum of pseudo header and payload, and in words: 65535 less the fold of protocol, length, the four address words of the IP header and the payload; the 32-bit pattern never exceeds 65535 * (256 + words), and fits a signed int for up to 65025 bytes |
| InCksum.AddNext | tn_net/in4_cksum.c:142-220 | one mbuf of the chain, empty or not: what it adds to the payload read, and when the sum goes on growing without being folded |
| InCksum.SumOverflows | tn_net/in4_cksum.c:88-234 | for every payload length from 65026 bytes on there is a packet, of buffers no longer than m_len can say, for which a run of in4_cksum overflows the signed sum |
| CksumTheorems.Rfc1071Example | tn_net/in4_cksum.c:85-86 | the numerical example of section 3 of RFC 1071, in both byte orders |
| CksumTheorems.RestMeaning | tn_net/in4_cksum.c:131-145 | the payload is as many of len bytes as the buffers hold from off on, each of them the byte at its place in its buffer |
| CksumTheorems.ChecksumTwoChains | tn_net/in4_cksum.c:132-231 | chains with the same bytes get the same result whatever their buffer boundaries, empty buffers and address parities |
| CksumTheorems.HtonsOrder | tn_net/tn_net_types.h:55-82 | the length field of the pseudo header has the same two bytes in memory on both kinds of CPU |
| CksumTheorems.ChecksumSwap | tn_net/in4_cksum.c:144-233 | the little-endian result is the big-endian result with its bytes exchanged |
| CksumTheorems.ByteOrderIndependent | tn_net/in4_cksum.c:101-233 | the two bytes that the result occupies in memory do not depend on the CPU's byte order (section 2(B) of RFC 1071) |
| CksumTheorems.VerifiesIff | tn_net/in4_cksum.c:224-233 | a receiver accepts a packet exactly when its words add up to a positive multiple of 65535 |
| CksumTheorems.StoredWordVerifies | tn_net/in4_cksum.c:224-233 | replacing a zeroed word by the checksum, or by all ones when that is zero, makes the checksum zero |
| CksumTheorems.CorruptionDetected | tn_net/in4_cksum.c:88-234 | a packet that verifies and has one word changed verifies again if and only if the word is unchanged or all zeros and all ones were exchanged in an otherwise non-zero packet |
| CksumTheorems.WrongAddress | tn_net/in4_cksum.c:113-128 | a packet that verifies verifies with another word in its source or destination address if and only if all zeros and all ones were exchanged; so no change of a single address byte passes |
| CksumTheorems.WrongProtocol | tn_net/in4_cksum.c:113-128 | nor does it verify for another protocol |
| CksumTheorems.WrongLength | tn_net/in4_cksum.c:113-128 | with the same payload it verifies for another length if and only if 0 and 65535 were exchanged |
| CksumTheorems.CoveredStore | tn_net/in4_cksum.c:113-145 | storing two bytes in the chain, even across two buffers, replaces one word of what is covered and leaves the pseudo header alone |
| CksumTheorems.SendAndVerify | tn_net/in4_cksum.c:88-234 | a sender's store (as in tn_udp.c:309-320) followed by the receiver's run of in4_cksum with the same arguments returns 0, field straddling two buffers or not, with the all-ones substitution of UDP or not |
| Links.ApplyMeaning | tn_net/queue.h:344-404 | what every operation of a run does to the sequence, place by place |
| Links.ApplyAllLast | tn_net/queue.h:344-404 | a run does its operations one after the other |
| Links.ReverseAt | tn_net/queue.h:336-339 | in the reverse, place k has what place k from the end has |
| Links.ChainedInsert | tn_net/queue.h:359-381 | redirecting one next slot to a new pair makes the chain of the longer sequence |
| Links.BackChainedInsert | tn_net/queue.h:366-381 | likewise for the prev slots |
| Links.ChainedDelete | tn_net/queue.h:383-392 | redirecting one next slot past a pair makes the chain of the shorter sequence |
| Links.BackChainedDelete | tn_net/queue.h:383-392 | likewise for the prev slots |
| TailQueue.TailQ.constructor | tn_net/queue.h:344-347 | an empty queue whose tqh_last designates tqh_first |
| TailQueue.TailQ.First | tn_net/queue.h:320 | the first element, or NULL |
| TailQueue.TailQ.Last | tn_net/queue.h:323-324 | the cast of tqh_last to a head gives the last element, and NULL for the empty queue |
| TailQueue.TailQ.Next | tn_net/queue.h:322 | the successor, or NULL |
| TailQueue.TailQ.Prev | tn_net/queue.h:326-327 | the cast of tqe_prev to a head gives the predecessor, and NULL for the first element |
| TailQueue.TailQ.Foreach | tn_net/queue.h:331-334 | visits the elements in order and ends |
| TailQueue.TailQ.ForeachReverse | tn_net/queue.h:336-339 | the k-th element visited is the k-th from the end, all of them are, and the loop ends |
| TailQueue.TailQ.InsertHead | tn_net/queue.h:349-357 | the sequence gets the element in front; only the head, the old first element and the new one are written |
| TailQueue.TailQ.InsertTail | tn_net/queue.h:359-364 | the element is appended through tqh_last |
| TailQueue.TailQ.InsertAfter | tn_net/queue.h:366-374 | the element follows the given one |
| TailQueue.TailQ.InsertBefore | tn_net/queue.h:376-381 | the element precedes the given one, without the head |
| TailQueue.TailQ.Remove | tn_net/queue.h:383-392 | the element is taken out, its neighbours are linked |
| TailQueue.TailQ.Replace | tn_net/queue.h:394-404 | the new element takes the place of the old one |
| TailQueue.TailQ.Run | tn_net/queue.h:344-404 | after any run of enabled operations the structure represents the sequence that the operations give |
| CircleQueue.CircleQ.constructor | tn_net/queue.h:448-451 | an empty ring through the head |
| CircleQueue.CircleQ.Foreach | tn_net/queue.h:435-438 | visits the elements in order and ends at the head |
| CircleQueue.CircleQ.ForeachReverse | tn_net/queue.h:440-443 | the k-th element visited is the k-th from the end, all of them are, and the loop ends at the head |
| CircleQueue.CircleQ.InsertAfter | tn_net/queue.h:453-461 | the element follows the given one, next and prev stay inverse |
| CircleQueue.CircleQ.InsertBefore | tn_net/queue.h:463-471 | the element precedes the given one |
| CircleQueue.CircleQ.InsertHead | tn_net/queue.h:473-481 | the element comes first |
| CircleQueue.CircleQ.InsertTail | tn_net/queue.h:483-491 | the element comes last |
| CircleQueue.CircleQ.Remove | tn_net/queue.h:493-506 | the element is taken out of the ring |
| CircleQueue.CircleQ.Run | tn_net/queue.h:448-506 | after any run of these operations the ring represents the sequence that they give |
| SingleQueues.List.constructor | tn_net/queue.h:193-195 | an empty list |
| SingleQueues.List.InsertHead | tn_net/queue.h:212-217 | the element comes first |
| SingleQueues.List.InsertAfter | tn_net/queue.h:197-203 | the element follows the given one; only the two and the successor are written |
| SingleQueues.List.InsertBefore | tn_net/queue.h:205-210 | the element precedes the given one; the head is not known |
| SingleQueues.List.Remove | tn_net/queue.h:219-226 | the element is taken out; only its neighbours are written and the head is not known |
| SingleQueues.List.Replace | tn_net/queue.h:228-236 | the new element takes the place of the old one; the head is not known |
| SingleQueues.List.Foreach | tn_net/queue.h:185-188 | visits the elements in order and ends |
| SingleQueues.List.Run | tn_net/queue.h:193-236 | after any run of enabled operations the structure represents the sequence that the operations give |
| SingleQueues.ListMove | tn_net/queue.h:193-236 | moving an element between two lists takes it out of one and puts it into the other, and a third list keeps its structure and contents |
| SingleQueues.SimpleQ.constructor | tn_net/queue.h:271-274 | an empty queue whose sqh_last designates sqh_first |
| SingleQueues.SimpleQ.InsertHead | tn_net/queue.h:276-280 | the element comes first; sqh_last keeps designating the final slot |
| SingleQueues.SimpleQ.InsertTail | tn_net/queue.h:282-286 | the element comes last |
| SingleQueues.SimpleQ.InsertAfter | tn_net/queue.h:288-292 | the element follows the given one |
| SingleQueues.SimpleQ.RemoveHead | tn_net/queue.h:294-297 | the first element is taken out; an emptied queue can be filled again |
| SingleQueues.SimpleQ.Foreach | tn_net/queue.h:263-266 | visits the elements in order and ends |
| SingleQueues.SimpleQ.Run | tn_net/queue.h:271-297 | after any run of enabled operations the structure represents the sequence that the operations give |
| SingleQueues.InputsMeaning | tn_net/queue.h:282-286 | what a run of insert-tail and remove-head has put in, place by place |
| SingleQueues.Fifo | tn_net/queue.h:271-297 | any run of insert-tail and remove-head, with elements put again after they have been taken out, is first in, first out: what came out followed by what is inside is what went in |
| SingleQueues.SList.Remove | tn_net/queue.h:146-158 | the search loop ends, the element is taken out, and nothing is written but the next slot of its predecessor |
| Formatter.StrParams.Put | demo_pc/http_test_1/tn_sprintf.c:368-385 | stores a character and a NUL after it, or stores nothing and fails |
| Formatter.Params.OutputChar | demo_pc/http_test_1/tn_sprintf.c:306-317 | after any output the buffer is the cut of all characters so far, and the count is their number or, for good, -1 |
| Formatter.Params.OutputField | demo_pc/http_test_1/tn_sprintf.c:320-365 | outputs exactly the field: padding, sign, zeros and body in the order of the options |
| Formatter.PrintNumber | demo_pc/http_test_1/tn_sprintf.c:239-282 | the loop ends with the digits, most significant first, in at most 32 of the 36 cells |
| Formatter.NumeralLength | demo_pc/http_test_1/tn_sprintf.c:241-244 | one digit per bit suffices in every base |
| Printf.ScanDecimal | demo_pc/http_test_1/tn_sprintf.c:130-134 | a width is the number that its digits denote; nothing beyond the NUL is read |
| Printf.ScanShort | demo_pc/http_test_1/tn_sprintf.c:149-154 | a precision narrowed to short at every digit is the narrowed number |
| Printf.ScanPrecisionField | demo_pc/http_test_1/tn_sprintf.c:137-156 | the precision, given, taken from an argument, or absent |
| Printf.ScanDirective | demo_pc/http_test_1/tn_sprintf.c:96-164 | flags, width, precision and `l` are those of the item, whose arguments have been taken |
| Printf.Classify | demo_pc/http_test_1/tn_sprintf.c:166-202 | which conversions are valid, their base, and what they do to the options |
| Printf.EditedLength | demo_pc/http_test_1/tn_sprintf.c:220-235 | the text of a string is its characters before the NUL, at most as many as the precision; the loop looks beyond the memory of the string exactly when the argument is not readable up to its NUL or including the byte at the precision |
| Printf.ReadableExact | demo_pc/http_test_1/tn_sprintf.c:224-234 | for every string and precision the last look is inside the string if and only if it has a NUL or a byte at the precision; of the strings that the comment allows, those without a NUL that are no longer than the precision fail |
| Printf.CommentPromisesTooMuch | demo_pc/http_test_1/tn_sprintf.c:229-230 | three characters without a NUL do not suffice for a precision of three |
| Printf.PrintMagnitude | demo_pc/http_test_1/tn_sprintf.c:237-282 | sign and digits of the value, the most negative long included |
| Printf.ConvertNumber | demo_pc/http_test_1/tn_sprintf.c:237-289 | the field of a number with its leading zeros |
| Printf.Convert | demo_pc/http_test_1/tn_sprintf.c:204-291 | the rendering of the item, and one argument for each star and each valid conversion |
| Printf.VStrXPrintf | demo_pc/http_test_1/tn_sprintf.c:80-303 | terminates, reads no format character after the NUL, takes the arguments that the format asks for, and leaves the cut of the rendering |
| Printf.VStrPrintf | demo_pc/http_test_1/tn_sprintf.c:56-77 | the buffer holds the longest prefix of the unlimited rendering that fits, and the result is its full length or -1 |
| FormatScan.ItemScansBack | demo_pc/http_test_1/tn_sprintf.c:94-202 | an item written as text, with or without an `l`, before any other text, is scanned back |
| FormatScan.RenderMeaning | demo_pc/http_test_1/tn_sprintf.c:80-303 | rendering a format that was written from items is the renderings of the items, one after the other |
| FormatMeaning.NumberMeaning | demo_pc/http_test_1/tn_sprintf.c:237-289 | which argument a numeric conversion prints; %d with its sign, %u, %x, %X, %o and %b without; width and precision from the format or narrowed from their arguments; the shortest digits in base 10, 16, 8 or 2 and in the case of the conversion, zeros up to the precision, padding where the flags say |
| FormatMeaning.NumberReadsBack | demo_pc/http_test_1/tn_sprintf.c:261-264 | what %d prints reads as the signed word, what the others print as the unsigned word, in base 10, 16, 8 and 2 |
| FormatMeaning.CharacterMeaning | demo_pc/http_test_1/tn_sprintf.c:213-219 | %c prints the low byte of its argument, padded with spaces |
| FormatMeaning.StringMeaning | demo_pc/http_test_1/tn_sprintf.c:220-236 | %s prints its argument up to its NUL or the precision, padded with spaces |
| FormatMeaning.OtherMeaning | demo_pc/http_test_1/tn_sprintf.c:204-211 | every other character behind the directive is printed itself, such as the second of %%; nothing at the end of the format |
| FormatMeaning.TotalMeaning | demo_pc/http_test_1/tn_sprintf.c:121-266 | a format takes one argument for each star and one for each of the eight conversions |
| FormatMeaning.DottedRenders | demo_pc/http_test_1/tn_sprintf.c:80-303 | for every n, n times %d with points in between prints n arguments, the k-th as the shortest signed decimal of the k-th argument |
| FormatMeaning.PrintDotted | demo_pc/http_test_1/tn_sprintf.c:56-303 | a run of tn_snprintf with that format takes all n arguments, and the buffer holds what fits of those decimals |
| FormatMeaning.Spelling | demo_pc/http_test_1/tn_sprintf.c:96-164 | how some conversions with flags, width, precision and `l` are written |
| FormatTheorems.NumeralRoundTrip | demo_pc/http_test_1/tn_sprintf.c:239-282 | for every word: at most 32 digits, no superfluous leading zero, and the digits denote the value |
| FormatTheorems.FieldReadsBack | demo_pc/http_test_1/tn_sprintf.c:320-365 | whatever the flags, width and precision, the field of a number reads back as its value |
| FormatTheorems.ItemReadsBack | demo_pc/http_test_1/tn_sprintf.c:237-289 | printing with any numeric conversion and reading back is the identity |
| FormatTheorems.FieldLayout | demo_pc/http_test_1/tn_sprintf.c:320-365 | a field has the larger of its width and its contents, padding on one side only, sign and zeros in their places |
| FormatTheorems.ImageMeaning | demo_pc/http_test_1/tn_sprintf.c:368-385 | the stored text is the longest prefix that leaves room for a NUL, the NUL follows it, no byte from index maxLen on changes, and nothing at all is stored when nothing fits |
| FormatTheorems.TakesOnlyWhatIsThere | demo_pc/http_test_1/tn_sprintf.c:121-156 | a format that fits its arguments never takes more than there are |
| Mwc.RndMwc.Init | demo_pc/tcp_test_1/rnd.cpp:24-35 | the seeds are taken as they are, a zero for x as 30903, and a is 1791398085 |
| Mwc.RndMwc.Rand | demo_pc/tcp_test_1/rnd.cpp:38-48 | the 32-bit computation by halves is, in numbers: x becomes the low word of x * a + c, c the partial high word or 1 |
| Mwc.RndMwc.Draw | demo_pc/tcp_test_1/rnd.cpp:24-48 | any number of draws from any seed are the iterated steps; the first word is a * x + c of the seeds, and every later one is given in numbers by the two before it |
| Mwc.HalfProducts | demo_pc/tcp_test_1/rnd.cpp:40-44 | no product or sum of halves overflows 32 bits, and the partial carry is below a |
| Mwc.CorrectionOnlyAtZero | demo_pc/tcp_test_1/rnd.cpp:45-46 | the correction fires exactly when the partial carry is zero |
| Mwc.CarryError | demo_pc/tcp_test_1/rnd.cpp:43-46 | the exact high word minus the stored carry lies between -1 and 3 from every state, and between -1 and 2 when the carry before was at most a |
| Mwc.LargestCarryError | demo_pc/tcp_test_1/rnd.cpp:43-46 | seeds for which it is 3 |
| Mwc.CarryExactIff | demo_pc/tcp_test_1/rnd.cpp:43-46 | the stored carry is exact if and only if nothing carries out of the low part, or exactly one unit does and the partial carry is zero |
| Mwc.CarryNotExact | demo_pc/tcp_test_1/rnd.cpp:43-46 | a state whose stored carry is wrong |
| Mwc.CarryInRange | demo_pc/tcp_test_1/rnd.cpp:24-48 | from every seed, after n > 0 draws the carry is between 1 and a - 1, (0, 0) is never entered, the next x is exact and the next carry within -1 and 2 of the exact one |
| Mwc.TrueStepPermutes | demo_pc/tcp_test_1/rnd.cpp:9-10 | a true multiply-with-carry step maps the states with a carry below a one-to-one into themselves |
| Mwc.StepsMerge | demo_pc/tcp_test_1/rnd.cpp:9-10 | the code's step does not: two states that seeds give have the same successor |
| Mwc.SeedNeverRecurs | demo_pc/tcp_test_1/rnd.cpp:9-10 | one of those two states is never seen again after any number of draws |
| Mwc.NoCommonPeriod | demo_pc/tcp_test_1/rnd.cpp:9-10 | for every p > 0 there are seeds whose state p draws do not bring back |

## TCP and IP

The contracts of `SeqSpace`, `TcpReass`, `TcpInput`, `TcpRuns` and `IpReasm` speak of positions in
what the peer sends, which the code does not have: it has only sequence numbers and fragment offsets.
`FormatMeaning.Ip4NumToStr` runs the formatter as the stack does.

| member | source | states |
|---|---|---|
| SeqSpace.DiffOf | tn_net/tn_tcp.h:395-398 | the signed difference of two wrapped sequence numbers is the true difference of positions less than 2^31 apart |
| TcpReass.FindNext | tn_net/tn_tcp_input.c:149-154 | the search stops at the first queued segment that begins after the new one |
| TcpReass.TrimFront | tn_net/tn_tcp_input.c:160-186 | the segment is dropped exactly when one queued segment has all of it; otherwise what is dropped from the front is held by the preceding one, and the rest is untouched |
| TcpReass.TrimFollowing | tn_net/tn_tcp_input.c:194-216 | trimming and removing the following segments loses no byte that the new segment does not bring, leaves no overlap, and forgets no FIN flag beyond its end |
| TcpReass.Place | tn_net/tn_tcp_input.c:194-229 | a segment put in its place adds exactly its positions, brings its own flag to its end, and leaves all flags outside it as they were |
| TcpReass.Enqueue | tn_net/tn_tcp_input.c:151-229 | the queue stays in stream order without overlap, and holds the old bytes and the new ones, no others; which FIN flags it has afterwards, outside the new segment |
| TcpReass.TcpCb.constructor | tn_net/tn_tcp_subr.c:270 | an empty queue with nothing received |
| TcpReass.TcpCb.PresentFirst | tn_net/tn_tcp_input.c:246-265 | delivering one segment moves its bytes from queue to socket and advances rcv_nxt by as much |
| TcpReass.TcpCb.Present | tn_net/tn_tcp_input.c:231-270 | nothing that can be delivered stays queued, nothing is delivered before the connection is established, and TH_FIN is returned exactly when a segment with the flag ends where the delivery ends |
| TcpReass.TcpCb.Reass | tn_net/tn_tcp_input.c:118-271 | received positions grow by exactly those of the segment; when no memory is left the queue is flushed and nothing else changes; in a drained connection TH_FIN is returned exactly when the segment is the next one and the flag at the new left edge is set |
| TcpInput.TrimReceived | tn_net/tn_tcp_input.c:619-656 | exactly the bytes before rcv_nxt are dropped, and a FIN to the left of the window with them |
| TcpInput.TrimBeyond | tn_net/tn_tcp_input.c:681-723 | exactly the bytes beyond the window are dropped; the segment is refused only if it begins there |
| TcpInput.Append | tn_net/tn_tcp_input.c:1076-1102 | in-order data is delivered at once |
| TcpInput.Merge | tn_net/tn_tcp_input.c:1074-1112 | delivered at once or reassembled, received positions grow by exactly those of the data; without memory, and unless it is delivered at once, the queue is lost |
| TcpInput.Accept | tn_net/tn_tcp_input.c:619-1120 | in whatever state the connection is at line 1072: when a FIN has been received before, and for a segment with nothing new inside the window, nothing changes; otherwise its part inside the window is taken in, or the queue is lost; and the FIN flags queued afterwards |
| TcpInput.TooEarlyIff | tn_net/tn_tcp_input.c:678-723 | with an honest sender the code reports the end before it is reached if and only if the left edge stops at the window that cuts off the FIN of the segment itself, or at a queued segment with the flag |
| TcpInput.Arrive | tn_net/tn_tcp_input.c:619-1120 | in every state from ESTABLISHED on and for every queue: nothing changes when a FIN has been received before; otherwise a FIN that ends the stream and arrives in order inside the window, alone or with data, is reported; of a segment that is kept exactly the positions inside the window are received; one that is not kept empties the queue just when it brings something new; and where the left edge ends, exactly when a FIN is reported, and exactly when it is reported too early |
| TcpRuns.Run | tn_net/tn_tcp_input.c:118-1120 | for every sequence of timely segments in ESTABLISHED, FIN_WAIT_1 or FIN_WAIT_2, with memory or without: what is delivered is the prefix of the stream up to the first position that no kept segment holds; a FIN is reported only if one was sent, and only at the end of the stream or at the right edge of a window that cut one off; it is reported when it arrives in order, when it came alone, was not lost, and the rest has come, and when all of a stream has come whose last byte always has it |
| TcpRuns.Transfer | tn_net/tn_tcp_input.c:118-1120 | for every sequence of kept segments in windows with room for the whole stream: the socket has exactly the bytes before the first one that no segment holds, and the end is reported if and only if they are all of them and a FIN has come |
| TcpRuns.FlagStays | tn_net/tn_tcp_input.c:160-229 | the flag of the last byte is not lost, whatever is queued, trimmed or flushed, as long as every segment with that byte has it |
| TcpRuns.LoneFinFirst | tn_net/tn_tcp_input.c:151-229 | a FIN that came alone is not forgotten while there is memory |
| TcpRuns.EdgeGrows | tn_net/tn_tcp_input.c:131-146 | what has been delivered never shrinks, whenever memory runs out |
| TcpRuns.AfterEdge | tn_net/tn_tcp_input.c:131-146 | when a segment is not kept, the left edge stays where it is and only what has been delivered remains |
| TcpRuns.GotIsBrought | tn_net/tn_tcp_input.c:118-271 | while there is memory, the positions received are those that some segment has brought inside the window of its own arrival |
| TcpRuns.GotIsUnion | tn_net/tn_tcp_input.c:118-271 | when every segment is kept and lies inside the window of its own arrival, they are the union of the segments |
| TcpRuns.OrderIndependent | tn_net/tn_tcp_input.c:118-271 | of such runs, two that bring the same bytes deliver the same bytes, in whatever order, however often and however cut into segments, and in whichever of those states |
| TcpRuns.AllArrivedAllDelivered | tn_net/tn_tcp_input.c:118-271 | when every byte has arrived inside a window at a time from which there was memory, all of the stream has been delivered, whatever was lost before |
| TcpRuns.FinCutOffReported | tn_net/tn_tcp_input.c:678-723 | ten bytes with a FIN and a window of five: the end is reported after five bytes |
| TcpRuns.QueuedFinCutOffReported | tn_net/tn_tcp_input.c:678-723 | the last eight bytes with the FIN come first and meet that window; the end is reported after five bytes when the first two have come |
| IpReasm.ReasmEntry.Reasm | tn_net/tn_ip_input.c:395-636 | search, overlap, linking, hole test and joining of the code are those of `Step` |
| IpReasm.Arrives | tn_net/tn_ip_input.c:395-636 | a fragment of the datagram takes the entry from free to one fragment to two and back to free, and what is returned depends on that and the fragment only |
| IpReasm.Run | tn_net/tn_ip_input.c:395-636 | for every sequence of fragments of one datagram, with memory or without: what every one of them returns |
| IpReasm.WholeIff | tn_net/tn_ip_input.c:564-632 | what is returned is the whole datagram if and only if its first fragment was queued before; otherwise it is a proper part |
| IpReasm.TwoFragments | tn_net/tn_ip_input.c:395-636 | two fragments that cover the datagram give it back if and only if the one with its beginning comes first; otherwise the last one is returned alone |
| IpReasm.WholeFromTwo | tn_net/tn_ip_input.c:465-472 | only two fragments that come one right after the other give the datagram back |
| IpReasm.ThreeNeverWhole | tn_net/tn_ip_input.c:465-472 | a datagram of which no two fragments have everything is never given back |
| IpReasm.Recovers | tn_net/tn_ip_input.c:395-482 | after any two fragments of which the second does not complete the first, a third one frees the entry, and the two that follow give the datagram back |
| IpReasm.OtherDatagram | tn_net/tn_ip_input.c:415-482 | a fragment of another datagram meets the entry as if it were free |
| IpReasm.LastFirst | tn_net/tn_ip_input.c:564-586 | the second half of sixteen bytes comes first and is returned as a datagram |
| IpReasm.MiddleFirst | tn_net/tn_ip_input.c:552-562 | the middle, the first and the last of three fragments: nothing is returned |
| FormatMeaning.Ip4NumToStr | tn_net/tn_net_utils.c:391-398 | the four bytes of an address, the most significant first, as decimals of at most three digits; four arguments are taken, and the 18 bytes of the call are always enough |

## Left out

- InCksum.In4Cksum: from 65026 bytes on the sum is read as the unsigned pattern that REDUCE takes, as if the signed `int` wrapped around.
- InCksum.In4Cksum: the two calls of tn_net_panic (lines 115-119) are requirements on the caller, as are a non-negative offset and length.
- CksumTheorems.SendAndVerify: the store of the result into the header is a function on chains; the headers themselves are not modelled.
- TcpReass.TcpCb.Reass: the queue is a sequence, not a linked tail queue (`TailQueue` has the links), mbuf data are byte sequences that m_adj cuts, and a packet is taken to be no longer than 65535 bytes, so that the 16-bit th_reseqlen is exact.
- TcpInput.Arrive: segments with SYN or RST, urgent data, acknowledgements and the changes of state that they bring (lines 600-618 and 724-1071), the reset when new data come after the user has gone (line 670), timers, and what follows a FIN (lines 1125 on) are not modelled.
- IpReasm.Run: fragments of other datagrams in between, the timeout of the entry (lines 643-670) and mbufs in a chain are not part of a run; a different fragment frees the entry (`IpReasm.Step`), and the lengths written into the header of the result are left out.
- TcpRuns.Run: when the last byte comes both with and without the FIN, it does not say from the arrivals alone whether the end is reported, because whether the flag of a queued segment survives a retransmission without it depends on how the queue is cut into segments; `TcpInput.Arrive` says it in terms of the queue.
- Printf.VStrXPrintf: other output functions than StrPrintfFunc are not modelled, nor is an output buffer that overlaps the format or a string argument; a width beyond INT_MAX, undefined in C, has its mathematical value.
- FormatScan.ItemScansBack: items whose conversion character is itself a flag, digit, star, dot or `l` cannot be written unambiguously and are excluded.
- CIRCLEQ_REPLACE, which does not compile for a pointer to a head, and the SLIST operations other than SLIST_REMOVE.
- _Q_INVALIDATE, which is empty unless debugging is on.
- ARP, ICMP, UDP, sockets, DHCP, the memory pools, the driver, the HTTP server and TDTP.
- TNKernel: tasks, mutexes and priority inheritance are another library than the network stack.
