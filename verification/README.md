# Verified model of the accelerated zlib library

The library drives a DEFLATE accelerator card. The card compresses and decompresses; everything around it is software: it
wraps the card's output in gzip or zlib framing, keeps half bytes, block headers and unused input between requests, queues
commands from many threads, and stages data for callers with small buffers. This project models that software and proves
what it keeps over every run. The card is an oracle: any answer within a stated contract.

| file | what it models |
|---|---|
| `Bits.dfy`, `Words.dfy` | bit strings of byte strings (least significant bit first), memory images of words |
| `Fifo.dfy` | the 256-slot output ring of the deflate side |
| `Framing.dfy` | the bytes of gzip and zlib headers and trailers |
| `DeflateSpec.dfy`, `Deflate.dfy` | the ideal compressed stream and what one call does to it; the stream object whose methods refine that |
| `InflateSpec.dfy`, `Inflate.dfy` | header, scratch and unread input as bit strings; the 512-byte area in which the library keeps them by overlapping moves |
| `HeaderSpec.dfy`, `HeaderProofs.dfy`, `HeaderParser.dfy` | the resumable header and trailer parsers byte by byte, their round trips, the object that runs them |
| `ZedcInflate.dfy` | the order of events in one inflate call: pending output, header, card, trailer |
| `DdcbSpec.dfy`, `DdcbProofs.dfy`, `DdcbAnswers.dfy`, `Ddcb.dfy` | the command queue as atomic steps of threads and card, its invariant over every interleaving, whose answer a good code is, the critical sections |
| `StreamEnd.dfy` | the scan for trailing empty blocks |
| `Staging.dfy` | the buffers between zlib callers and the library |
| `CardLists.dfy` | the doubly linked lists of devices and card descriptors, and the turns devices take on the cards |
| `Vpd.dfy` | the converters between the binary and the CSV form of the vital product data |
| `Crc.dfy`, `Adler.dfy` | table-driven CRC-32 against bit-by-bit division, Adler-32 against its closed form |

Each imperative part is a class or method proved against a specification function, and the laws are proved about that
function over all runs.

## What is proved

* Deflate. For every sequence of calls, every amount of output space per call and every admissible card answer, the bytes
  delivered, then the FIFO, then the incomplete byte are exactly the ideal stream: header, open fixed block, body, flush
  markers, one end of block, one trailer. Stream end means that all of it was delivered. No push into the FIFO is lost,
  except for gzip headers: the length test admits one shape with 256 bytes, whose last byte is lost, and texts whose
  lengths wrap in 32 bits, of which the first bytes are kept. For each call it is stated, without the specification's own
  helpers, which pieces are written: a marker for every sync, partial and full flush, end and trailer exactly when asked to
  finish with all input taken. The length in the trailer is the input taken over the run.
* Inflate. After each request the area shows exactly the header in force and the bits not yet consumed, whatever overlapping
  moves were made; over a run, consumed bits, live scratch and unread input are the original stream, and behind the final
  block at most seven bits are dropped before the bytes given back to the caller. A stored block that was cut goes on with
  the right length, bit by bit. The card is asked exactly when there is something to decompress and space for it, and every
  return code is tied to its case.
* Framing. The bytes that are written are stated bit by bit, and so is which bit of the flags makes the parser read which
  field, and which headers it refuses. A header that the deflate side wrote is parsed exactly, and every field is recovered
  under any chunking, if and only if its extra data is not present with length zero and no byte of it was lost.
  Dictionaries are accepted exactly by checksum. Trailers are taken exactly and accepted exactly when the checksum matches.
  A refusal is not remembered: whoever goes on calling reaches stream end with a wrong checksum too. The checksum was right
  if and only if no call was refused; a wrong one is refused once in a zlib stream and twice in a gzip stream.
* Queue. For every interleaving of threads and card: no slot is overwritten, completions are the submissions in order, each
  execute is woken once, after its whole chain, with the code of its last command. A good code means that a non-zero return
  code was stored in the slot while the command was outstanding. If the card stores nothing but answers, each once, that is
  the command's own answer unless an earlier command of the slot was completed without one; and in a run with such a
  command a late answer does complete another command with a good code. A timeout changes nothing before its time is over.
* The scan for the stream end terminates, and reports an end exactly when its 16-byte window holds empty blocks with a final
  one at the end from its start position on. After a request that got on and left no header its verdict can be trusted for
  every stream if and only if the header bits sent and the bits skipped at the start of the scratch agree modulo 8; for all
  other lengths there is a stream that goes on and in which an end is reported. Behind the last data that deflate wrote it
  sees the end: at most one flush marker can stand there, and the window has room for two.
* Staging. With a log that the card itself keeps: what the caller handed in is what the card absorbed and then what is
  staged, and what the card gave is what the caller got and then what is staged, in order, on both sides. A flush mode
  reaches the compressor only with the caller's last input; the branch for a non-empty output buffer is unreachable; the
  loop of the deflate side terminates. When the card is asked and which code a call returns is stated for every case.
* Card lists. Adding and removing keeps both lists linked in both directions and the other nodes in order; whenever the mutex
  is free, every device points to a listed descriptor, or to none if there is none; as many turns as there are descriptors
  visit each once.
* Vital product data. For every layout table and every image that belongs to it and has no hexadecimal field of 249 bytes or
  more, reading the printed form returns the image. Behind the first line, longer fields other than of 250 bytes are read
  with success and with wrong content, unless all their bytes are zero. For any line, its columns tell whether it is
  refused, skipped or taken; a text with a wrong line or without a line of the table is refused.
* Checksums. The table-driven CRC is the remainder of the bit-by-bit division for every polynomial, start value and message;
  it composes, a message followed by its own CRC has CRC 0, and with an odd polynomial, as both in use are, a change within
  four adjacent bytes is always noticed.

Where documentation and code disagree the code was followed: the completion function replaces the code of a command whose
echoed sequence number is wrong only if the code was already an error (lib/ddcb_capi.c:949-953), contrary to its comment.
That is why a late answer is taken for another command's.

## Model

| member | source | states |
|---|---|---|
| DeflateSpec.RunDelivers | lib/deflate.c:598-836 | over any calls with any output space and any card answers the stream stays well formed, delivered bytes are never taken back, and stream end means one end of block, one trailer and everything delivered |
| DeflateSpec.StepKeepsGood | lib/deflate.c:598-836 | each call that does not fail keeps header, open block, body and markers, and end in this order and at most once each |
| DeflateSpec.StepAppends | lib/deflate.c:623-648 | a call only appends to the generated stream and delivers at most the output space it was given |
| DeflateSpec.FinishEnds | lib/deflate.c:634-643 | asked to finish without input and with enough room, a call ends the stream |
| DeflateSpec.CardOutcome | lib/deflate.c:793-836 | a call that reaches the card fails exactly if the answer fails a check; otherwise it writes one piece of new bits, and behind it a marker for sync, partial and full flush, end and trailer for finish with all input processed, and nothing else |
| DeflateSpec.QuietOutcome | lib/deflate.c:623-648 | a call that does not reach the card writes a missing header, and end and trailer if it is to finish, has no input, and has room left |
| DeflateSpec.RefusedOutcome | lib/deflate.c:104-106 | a header is refused exactly if its texts add up to more than 240 in 32 bits, and then nothing happens |
| DeflateSpec.ReachesIff | lib/deflate.c:617-652 | the card is asked exactly if there is input, room, and no end of block yet |
| DeflateSpec.RoomIs | lib/deflate.c:623-632 | the room for the card is the output space that header and pending bytes leave |
| DeflateSpec.DeliveredOutcome | lib/deflate.c:178-187 | bytes are held back only when the output space is used up, and stream end is reported exactly with room left, the end written and nothing held back |
| DeflateSpec.LeftoverBits | lib/deflate.c:552-590 | bit by bit, what the card reports behind its output is in the first 24 bytes and then in the others |
| DeflateSpec.RunCountsInput | lib/deflate.c:488-488 | over any run the length in the trailer is the input taken |
| Deflate.DeflateStream.Deflate | lib/deflate.c:598-836 | one call refines the specification step: same return code, and delivered bytes, FIFO and half byte are the specified stream |
| DeflateSpec.EndTakesNoInput | lib/deflate.c:630-643 | input offered behind the end of block never reaches the card |
| Deflate.DeflateStream.StartCall | lib/deflate.c:623-632 | header and pending output come first, and room is left only if the FIFO is empty |
| Deflate.DeflateStream.constructor | lib/deflate.c:189-240 | a new stream holds the open fixed block and nothing else |
| Deflate.DeflateStream.AddHeader | lib/deflate.c:73-173 | the header goes in front of everything once, or is refused by the length test |
| Deflate.DeflateStream.QueueGzipHeader | lib/deflate.c:81-139 | the FIFO holds the first 255 bytes of the header, whose bytes Framing.HeaderBytes and Framing.HeaderFlags state, or the magic bytes of a refused one |
| Deflate.DeflateStream.WriteOutFifo | lib/deflate.c:178-187 | as many queued bytes as fit are delivered in order |
| Deflate.DeflateStream.WriteEob | lib/deflate.c:391-417 | the end of block and an empty final block are appended once, and the stream is byte aligned |
| Deflate.DeflateStream.WriteSync | lib/deflate.c:427-451 | the flush marker and a reopened fixed block are appended |
| Deflate.DeflateStream.AddTrailer | lib/deflate.c:346-373 | the trailer is appended once, only behind the end of block |
| Deflate.DeflateStream.StoreLeftover | lib/deflate.c:552-590 | left-over bytes of both hardware layouts and the incomplete byte are exactly the reported bits |
| Deflate.DeflateStream.ProcessResults | lib/deflate.c:462-591 | an answer is booked if and only if it passes the sanity checks, and then its bits continue the stream |
| Deflate.DeflateStream.FinishStream | lib/deflate.c:635-639 | end of block, trailer and as much output as fits |
| Deflate.DeflateStream.FinishOrMark | lib/deflate.c:809-829 | the flush mode adds end or marker as specified, of which DeflateSpec.CardOutcome says when there must be one |
| Deflate.DeflateStream.AfterCard | lib/deflate.c:793-835 | the part of a call behind the card's answer refines the specification |
| Deflate.EobGrows | lib/deflate.c:404-412 | the three bytes written for any pending bits are 0000000, an empty final fixed block and zero padding |
| Deflate.SyncGrows | lib/deflate.c:432-449 | the bytes written for any pending bits are 0000000, a stored header, padding, length 0 and its complement, then an open block |
| Framing.AcceptedHeaderFits | lib/deflate.c:104-106 | a header that passes the length test is queued whole unless it has the one shape of 256 bytes or its lengths wrap in 32 bits |
| Framing.LongestHeadAccepted | lib/deflate.c:104-136 | there is a header that passes the test and loses its last byte |
| Framing.HeaderFlags | lib/deflate.c:93-110 | bits 0x01 to 0x10 of the fourth header byte are set exactly for text, header CRC, extra data, name and comment, and no other bit is |
| Framing.HeaderBytes | lib/deflate.c:87-136 | magic bytes, time, system, then extra data behind its two length bytes, name, comment and CRC |
| Framing.ZlibBytes | lib/deflate.c:160-168 | the zlib header, and bit by bit the identifier of the dictionary, high byte first |
| Framing.TrailerBytes | lib/deflate.c:360-369 | bit by bit the checksum, low byte first for gzip and high byte first for zlib, and the length in four bytes |
| Words.Le16Bits | lib/inflate.c:319-320 | bit i of a 16-bit word is bit i modulo 8 of byte i / 8 of its little-endian image |
| Words.WordBits | lib/deflate.c:362-368 | the same for 32 bits, and for the big-endian image from its end |
| Words.CounterBytes | lib/deflate.c:363-363 | a counter of any size is stored as its lower four digits to the base 256 |
| OutputFifo.Fifo.Push | include/deflate_fifo.h:72-80 | appends a byte unless 255 are queued, and says so |
| OutputFifo.Fifo.Push32 | include/deflate_fifo.h:82-99 | appends four bytes or nothing |
| OutputFifo.Fifo.Pop | include/deflate_fifo.h:101-109 | takes the oldest byte, if there is one |
| OutputFifo.Fifo.Pop16 | include/deflate_fifo.h:111-127 | takes the two oldest bytes or nothing |
| OutputFifo.QueuePut | include/deflate_fifo.h:77-78 | writing at the push index appends to the queue, also across the wrap |
| OutputFifo.QueueTake | include/deflate_fifo.h:106-107 | reading at the pop index takes the front of the queue, also across the wrap |
| InflateSpec.RunConserves | lib/inflate.c:1262-1294 | however a stream is cut into calls, consumed bits, live scratch and unread input are the stream |
| InflateSpec.RunEnds | lib/inflate.c:1262-1312 | up to the end of the final block, consumed bits, at most seven dropped bits and the bytes left to the caller are the stream |
| InflateSpec.NextConserves | lib/inflate.c:141-198 | one request neither loses nor repeats compressed bits |
| InflateSpec.EndConserves | lib/inflate.c:211-233 | the request that ends the stream gives back every whole byte behind the final block |
| InflateSpec.StoredBitsAre | lib/inflate.c:314-320 | the header for the rest of a stored block is the final bit, seven zeros, the sixteen bits of the length and their complements |
| InflateSpec.NextHeaderIs | lib/inflate.c:72-326 | the header kept after any answer, case by case: that of a cut stored block, the bits reported, none, or the one in force |
| InflateSpec.NextUnreadIs | lib/inflate.c:141-198 | with output space left, or without progress, no input is left to the caller; with none, either all of it is, or fewer than eight bits are kept |
| InflateSpec.StatusBits | include/deflate_ddcb.h:137-145 | which bits of the status say what |
| Inflate.InflateStream.constructor | lib/inflate.c:1340-1397 | a new stream keeps nothing, and its area is laid out as requests need it |
| Inflate.InflateStream.InitState | lib/inflate.c:1340-1397 | a reset forgets header and scratch, from whatever state |
| Inflate.InflateStream.Request | lib/inflate.c:1167-1294 | after a request the area and the input hold exactly what the specification keeps, bit by bit for the header of a cut stored block, or the call fails in the two named cases |
| Inflate.InflateStream.SetInflateAsiv | lib/inflate.c:888-946 | header and scratch lengths are whole bytes, and the scratch begins where the card is told |
| Inflate.InflateStream.GetInflateAsv | lib/inflate.c:848-880 | header fields are taken over only after progress |
| Inflate.InflateStream.ExtractNewTree | lib/inflate.c:72-138 | a reported header comes to the front, padded to 64 bits, and the scratch still needed survives the move |
| Inflate.InflateStream.CopyHeader | lib/inflate.c:99-127 | the byte moves put header bytes of scratch and input in place, also when the scratch becomes the header |
| Inflate.InflateStream.CopyKept | lib/inflate.c:184-197 | the copy block used twice moves the asked bytes of scratch and input |
| Inflate.InflateStream.ScratchCounts | lib/inflate.c:150-179 | the number of bytes kept and the input position |
| Inflate.InflateStream.ScratchUpdate | lib/inflate.c:141-198 | the bytes from the position reached on are kept behind the header, which is untouched |
| Inflate.InflateStream.SetupTree | lib/inflate.c:211-250 | after progress the area shows the header in force and the rest of scratch and input |
| Inflate.InflateStream.DropHeader | lib/inflate.c:219-233 | the end of a block makes its header obsolete, and a final one ends the data |
| Inflate.InflateStream.CollectInput | lib/inflate.c:291-297 | without progress all input is kept behind the scratch |
| Inflate.InflateStream.TakeAnswer | lib/inflate.c:272-298 | with and without progress the area shows what must be kept, or the error for input that does not fit |
| Inflate.InflateStream.RestoreStoredHeader | lib/inflate.c:307-326 | a cut stored block gets a header with the remaining length and its complement, each bit at its place, and the scratch is untouched |
| Inflate.InflateStream.PostScratchUpd | lib/inflate.c:264-328 | header, scratch and input after an answer are the specified ones |
| Inflate.InflateStream.Advance | lib/inflate.c:1269-1294 | output and input are booked; input beyond the offered data cannot be claimed |
| Inflate.InputCountAgrees | lib/inflate.c:58-70 | past the scratch, the byte count agrees with the position derived for the scratch |
| Inflate.NewHeaderPlanned | lib/inflate.c:84-97 | the position computed for a new header is where its bits are |
| Inflate.ScratchPlanned | lib/inflate.c:153-182 | the bytes kept carry exactly the unconsumed bits |
| Inflate.PadExact | lib/inflate.c:131-137 | header and padding fill a multiple of 64 bits |
| Inflate.InflateStream.HeaderInPlace | lib/inflate.c:92-137 | read as bits, the front of the area is the reported header |
| Inflate.InflateStream.ScratchInPlace | lib/inflate.c:158-182 | read as bits, the bytes behind the header are the kept scratch |
| HeaderSpec.ChunkIndependent | lib/inflate.c:609-671 | a header may arrive in any pieces |
| HeaderSpec.FeedSplit | lib/inflate.c:637-665 | two pieces of input are as good as one |
| HeaderSpec.TurnAdvances | lib/inflate.c:445-591 | every iteration of the gzip state loop that goes on moves to a later state |
| HeaderSpec.FlagTurns | lib/inflate.c:463-587 | a field is read if and only if its bit, 0x01 to 0x10, is set in the fourth header byte |
| HeaderSpec.FieldTurns | lib/inflate.c:499-560 | each byte goes to the next place of its own field, a full buffer refuses the header, and length or terminator end the field |
| HeaderProofs.GzipHeaderRoundTrip | lib/inflate.c:428-600 | under any chunking a header written by deflate is consumed exactly and all its fields are recovered |
| HeaderProofs.GzipHeaderExactIff | lib/inflate.c:428-600 | a header that deflate accepts is parsed up to its end if and only if its extra data is not empty and no byte of it was lost |
| HeaderProofs.LostBytesMissEnd | lib/deflate.c:117-136 | when the end of a header was lost, the parser takes the next bytes of the stream for it |
| HeaderProofs.EmptyExtraMissesEnd | lib/inflate.c:492-499 | with extra data of length zero the parser runs past the header |
| HeaderProofs.ZlibHeaderRoundTrip | lib/inflate.c:356-414 | both zlib headers pass the checks, and the dictionary identifier is recovered under any chunking |
| HeaderProofs.MagicDecides | lib/inflate.c:446-456 | a gzip header is refused at its tenth byte if and only if one of the first three is wrong |
| HeaderProofs.ZlibVerdict | lib/inflate.c:356-414 | a zlib header is refused exactly if it is no multiple of 31 or has another method or window, and asks for a dictionary exactly if bit 0x20 is set |
| HeaderProofs.DictionaryHandshake | lib/inflate.c:1443-1467 | after a header with a dictionary, exactly the dictionaries of at most 0x8010 bytes with its checksum are accepted |
| HeaderProofs.TrailerRoundTrip | lib/inflate.c:680-759 | a trailer is consumed exactly and accepted if and only if its checksum matches; the length is not compared |
| HeaderProofs.TrailerChunkIndependent | lib/inflate.c:697-758 | a trailer may arrive in any pieces |
| HeaderProofs.RefusalForgotten | lib/inflate.c:697-756 | over any calls until success, a right trailer is never refused, a wrong one once in zlib and twice in gzip |
| HeaderProofs.WrongTrailerSucceeds | lib/inflate.c:710-756 | a wrong trailer that is offered again is accepted after these refusals |
| HeaderProofs.TakeCounts | lib/inflate.c:710-753 | a call fails exactly if one more comparison fails |
| HeaderProofs.CompleteRefusals | lib/inflate.c:710-753 | a complete trailer has failed no comparison if its checksum is right, else one in zlib and two in gzip |
| HeaderParser.ParserState.OneTurn | lib/inflate.c:446-590 | one iteration of the gzip state loop refines the specification, of which HeaderSpec.FlagTurns and HeaderSpec.FieldTurns say what it does |
| HeaderParser.ParserState.RunStates | lib/inflate.c:445-591 | the state loop ends at a state that waits, at the end, or at a refusal |
| HeaderParser.ParserState.RemGzipHeader | lib/inflate.c:428-600 | one more byte of a gzip header |
| HeaderParser.ParserState.RemZlibHeader | lib/inflate.c:356-414 | one more byte of a zlib header |
| HeaderParser.ParserState.HeaderStep | lib/inflate.c:638-649 | a byte is stored, parsed and counted |
| HeaderParser.ParserState.RemHeader | lib/inflate.c:609-671 | one call consumes what the parser consumes and reports refusals and dictionaries |
| HeaderParser.ParserState.SetDictionary | lib/inflate.c:1443-1467 | a dictionary is taken if and only if it fits and, for zlib, has the announced checksum, and which error is given otherwise |
| HeaderParser.ParserState.TrailerByte | lib/inflate.c:702-753 | a trailer byte is collected and the due comparison is made |
| HeaderParser.ParserState.RemTrailer | lib/inflate.c:680-759 | one call consumes what the trailer still needs and gives the specified verdict |
| ZedcInflate.Session.Inflate | lib/inflate.c:1075-1334 | the card is asked exactly once if there is output space behind pending output, no end yet, a complete header, and input or scratch, and not at all otherwise; the code in each case; what is produced is its output and nothing else; stream end means a complete trailer and everything delivered, and the calls refused before tell whether the checksum matches |
| ZedcInflate.Session.FlushAndEnd | lib/inflate.c:1075-1107 | the part in front of the header: it ends the call exactly if the final block has ended or the output space is used up |
| ZedcInflate.Session.HeaderAndRequest | lib/inflate.c:1108-1312 | header, then exactly one request if there is input or scratch; the parser decides the code of a call without one |
| ZedcInflate.Session.RemoveHeader | lib/inflate.c:1108-1112 | exactly the header bytes leave the input, and the verdict gives the code |
| ZedcInflate.Session.RequestAndFinish | lib/inflate.c:1201-1312 | the request's output is added once, and if the final block ended the trailer follows |
| ZedcInflate.Session.FlushOutputBuffer | lib/inflate.c:808-838 | pending output is delivered in order, as much as fits |
| ZedcInflate.Session.ReadPendingOutput | lib/inflate.c:778-800 | pending output is handed out in order, once |
| ZedcInflate.Session.Request | lib/inflate.c:1201-1300 | a request adds exactly its output, stored and then unstored, steps over the input it used, and fails exactly in the named cases |
| ZedcInflate.Session.RequestWithArea | lib/inflate.c:1166-1300 | session and area stay in step: same input, output space and scratch, and the area keeps what the specification keeps |
| ZedcInflate.Session.Finish | lib/inflate.c:1302-1312 | exactly the trailer bytes leave the input and the verdict gives the code; the end is reported only behind a complete trailer and without pending output; each refusal is counted, and at the end their number is the one due for the checksum |
| DdcbProofs.ReachableInv | lib/ddcb_capi.c:809-988 | the queue invariant holds after every interleaving |
| DdcbProofs.StepKeepsInv | lib/ddcb_capi.c:809-988 | every step of a thread, the done thread or the card keeps it |
| DdcbProofs.TokenMeansRoom | lib/ddcb_capi.c:828-838 | a thread with a token finds a free slot, so no outstanding command is overwritten |
| DdcbProofs.StepKeepsTokens | lib/ddcb_capi.c:828-975 | tokens, holders and outstanding commands always make four |
| DdcbProofs.BusySlotsAreCyclicRun | lib/ddcb_capi.c:834-850 | the occupied slots are the cyclic run from the output to the input index |
| DdcbProofs.SlotFromSeq | lib/ddcb_capi.c:381-382 | a slot follows from its sequence number, also across the 16-bit wrap |
| DdcbProofs.ConsecutiveSeqs | lib/ddcb_capi.c:839-844 | outstanding sequence numbers are consecutive |
| DdcbProofs.StepKeepsOrder | lib/ddcb_capi.c:903-986 | completions are the submissions in order, and a good code needs a non-zero return code stored in the slot while the command was outstanding |
| DdcbProofs.ReturnSeesWholeChain | lib/ddcb_capi.c:854-869 | a waiter is woken once, after its whole chain, and sees the last command's code |
| DdcbProofs.WrittenByCardOnly | lib/ddcb_capi.c:928-935 | only the card, while the command is outstanding, stores what the completion looks at |
| DdcbAnswers.GoodCodeIsOwnAnswer | lib/ddcb_capi.c:896-988 | over every interleaving, if the card stores only answers, each once, a good code is the command's own answer unless an earlier command of its slot was completed without one |
| DdcbAnswers.StepKeepsOwn | lib/ddcb_capi.c:809-988 | every step keeps that what is stored for a command is its own answer or a late one |
| DdcbAnswers.LateAnswerTaken | lib/ddcb_capi.c:928-953 | whatever number the card echoes, the late answer to an earlier command of the slot completes the oldest command with a good code |
| DdcbAnswers.UnansweredGoodCode | lib/ddcb_capi.c:896-988 | there is a run in which a command that was never answered completes with a good code |
| DdcbProofs.StepExtendsHistory | lib/ddcb_capi.c:967-983 | a step completes at most one command and undoes none |
| DdcbProofs.ErrorPostStops | lib/ddcb_capi.c:1097-1104 | with an error code the completion loop stops only when nothing is outstanding |
| DdcbProofs.PostOutcome | lib/ddcb_capi.c:896-988 | a post changes nothing if nothing is outstanding, the time for a timeout is not over, or a good code has no return code; otherwise it completes exactly the oldest command, frees slot and token, and wakes the thread behind the last command of its chain |
| DdcbProofs.TimeoutWaits | lib/ddcb_capi.c:913-922 | a timeout changes nothing before its time |
| DdcbProofs.TimeoutsElapsed | lib/ddcb_capi.c:913-922 | over any run, a command completes with a timeout only in a step whose time was over |
| DdcbProofs.NeverStuck | lib/ddcb_capi.c:826-867 | while an execute is under way a thread can move or a command is outstanding |
| Ddcb.DevCtx.constructor | lib/ddcb_capi.c:344-394 | the initial queue satisfies the invariant |
| Ddcb.DevCtx.Cmd2Ddcb | lib/ddcb_capi.c:242-262 | the numbers and the return code that completion looks at |
| Ddcb.DevCtx.ExecuteLocked | lib/ddcb_capi.c:830-862 | the critical section of a submission is the submission step |
| Ddcb.DevCtx.DonePost | lib/ddcb_capi.c:896-988 | the critical section of a completion is the completion step, and it goes on if and only if something is outstanding and the code is an error or the oldest command has a return code |
| Ddcb.DevCtx.Others | lib/ddcb_capi.c:809-988 | while the lock is free any enabled steps of threads and card may happen |
| Ddcb.DevCtx.Drain | lib/ddcb_capi.c:1097-1104 | with any steps of others in between, when the error loop stops nothing is outstanding, and every command it completed got an error |
| Ddcb.DevCtx.ProcessAnswered | lib/ddcb_capi.c:1136-1143 | with any steps of others in between, only commands with a non-zero return code are completed, until the oldest one left has none |
| StreamEnd.StreamEnding.GetBits | lib/hardware.c:1066-1088 | the next bits as a number, or that they are missing |
| StreamEnd.StreamEnding.DropBits | lib/hardware.c:1093-1108 | moves on unless the end of the data would be reached |
| StreamEnd.StreamEnding.SyncToByte | lib/hardware.c:1115-1123 | moves to the next byte boundary |
| StreamEnd.StreamEnding.ReadHeader | lib/hardware.c:1267-1297 | a block header is read, or the scan can give up |
| StreamEnd.StreamEnding.FixedBlock | lib/hardware.c:1299-1318 | an empty fixed block is passed, ends the stream, or the scan gives up |
| StreamEnd.StreamEnding.StoredBlock | lib/hardware.c:1320-1340 | an empty stored block is passed, ends the stream, or the scan gives up |
| StreamEnd.StreamEnding.Scan | lib/hardware.c:1264-1346 | the endless loop ends with the verdict of the recogniser |
| StreamEnd.CheckStreamEnd | lib/hardware.c:1195-1346 | an end is reported if and only if the window holds empty blocks with a final one at the end |
| StreamEnd.ScanStart | lib/hardware.c:1240-1240 | the bit at which the scan starts is the first one that the request left unconsumed if and only if header bits and skipped bits agree modulo 8, or nothing was processed and nothing is skipped |
| StreamEnd.AlignedScan | lib/hardware.c:1237-1346 | then an end is reported only if the data not yet consumed begin with closing blocks, and always if they fit in the window |
| StreamEnd.MisalignedScan | lib/hardware.c:1237-1346 | for all other header lengths and skipped bits, and wherever the request stops, there is a stream that goes on and in which an end is reported |
| StreamEnd.TruthfulIff | lib/hardware.c:1237-1346 | the verdict after a request can be trusted for every stream if and only if header bits and skipped bits agree modulo 8 |
| StreamEnd.RequestAndScan | lib/hardware.c:1528-1565 | the request and the scan of what it leaves in the area, run one after the other, give the verdict with this meaning |
| StreamEnd.ScanMeansEnd | lib/hardware.c:1246-1254 | from where the unconsumed data begin, the window shows the closing blocks only if they are there, and always if the data fit |
| StreamEnd.ClosesIff | lib/hardware.c:1264-1346 | the recogniser accepts exactly the renderings of such block sequences |
| StreamEnd.DeflateTailCloses | lib/deflate.c:391-451 | flush markers and the closing bytes of deflate are empty blocks, the last one final |
| StreamEnd.TailSeenIff | lib/hardware.c:1246-1346 | the scan of the window sees the end behind flush markers if and only if there are at most two of them |
| StreamEnd.StreamTail | lib/deflate.c:598-836 | a complete stream of deflate closes behind at most one flush marker |
| StreamEnd.OwnEndSeen | lib/hardware.c:1237-1346 | where the last data of a complete stream end, the scan of what is left sees the end |
| Staging.HwState.ReadIbuf | lib/hardware.c:533-555 | as much input as fits is collected, in order |
| Staging.HwState.FlushObuf | lib/hardware.c:563-596 | as much staged output as fits is delivered, in order |
| Staging.HwState.Card | lib/hardware.c:509-526 | any amount of the input, any output that fits, any code; the run and its code go into the log |
| Staging.HwState.Send | lib/hardware.c:656-690 | the log gets one run on the staged input, its output is staged, a flush mode is passed only with the last input, and success means that all input was absorbed |
| Staging.HwState.DeflatePass | lib/hardware.c:640-717 | one pass conserves data, asks the card exactly if staged output leaves space and the mode or a full buffer asks for it, ends with each code exactly in its case, and makes progress |
| Staging.HwState.Deflate | lib/hardware.c:612-721 | input and output agree with the log, the runs keep the flush rule, stream end and stream error are returned exactly in their cases, and the loop ends |
| Staging.HwState.Feed | lib/hardware.c:1514-1532 | a run of the card on the caller's own input |
| Staging.HwState.Direct | lib/hardware.c:627-632 | without buffers data passes through |
| Staging.HwState.RunCard | lib/hardware.c:1514-1545 | the card works on an empty buffer or on the caller's, and its output is staged or delivered |
| Staging.HwState.CardPass | lib/hardware.c:1510-1590 | from the start of the card on, data is conserved, and the code follows from the code of the run, the buffers and the space left |
| Staging.HwState.InflatePass | lib/hardware.c:1449-1590 | one pass conserves data, asks the card exactly in the named cases, and the code follows in each case; the output buffer is empty whenever the card starts |
| Staging.HwState.Passes | lib/hardware.c:1446-1597 | the passes of one call, with the first one deciding whether the card is asked |
| Staging.HwState.MorePasses | lib/hardware.c:1446-1592 | while there is input passes go on, and an error of a run ends them |
| Staging.HwState.Inflate | lib/hardware.c:1390-1597 | over any number of passes input and output agree with the log, the card is asked exactly in the named cases, its error codes are returned and no others, and the other codes mean what they say |
| CardLists.List.Add | lib/libcard.c:514-534 | the new node is the last one, linked both ways, and the others keep their order |
| CardLists.List.Unlink | lib/libcard.c:542-565 | exactly this node leaves, at the head, tail or middle, and the links close around it |
| CardLists.Cards.FdAdd | lib/libcard.c:291-306 | the descriptor is appended; if it is the first one every device points to it, otherwise no device changes |
| CardLists.Cards.DevOpen | lib/libcard.c:1252-1265 | a device opened in redundant mode is listed last and starts at the head |
| CardLists.Cards.FdDel | lib/libcard.c:308-336 | exactly this descriptor leaves the list |
| CardLists.Cards.FdHeadAll | lib/libcard.c:347-355 | every device starts again at the head, so none points to a removed node |
| CardLists.Cards.FdHead | lib/libcard.c:357-368 | the device starts at the head |
| CardLists.Cards.GetAndInc | lib/libcard.c:374-391 | the descriptor at the device's turn is returned, and the turn moves on or wraps; there is none only if the list is empty |
| CardLists.Cards.TakeTurns | lib/libcard.c:374-391 | consecutive turns return the descriptors in cyclic order from the device's position |
| CardLists.EachOnce | lib/libcard.c:374-391 | as many turns as descriptors visit each exactly once, whatever the position |
| CardLists.Cards.DropClosedDevs | lib/libcard.c:626-635 | the walk removes exactly the closed devices and keeps the order of the others |
| CardLists.Cards.DropFds | lib/libcard.c:636-680 | the walk removes exactly the descriptors that must go, also while it stands on them, and leaves no device pointing to one |
| CardLists.Cards.HealthCheck | lib/libcard.c:614-686 | both lists after a health check, device by device and descriptor by descriptor, and whether it must run again |
| Crc.CrcTable.SetupLut | tools/genwqe_vpd_common.c:50-65 | each entry is eight steps of the division |
| Crc.CrcTable.Gen | tools/genwqe_vpd_common.c:67-78 | the table-driven checksum is the remainder of the bit-by-bit division |
| Crc.TableIsCrc | lib/libcard.c:1093-1104 | table steps and bit steps agree for every polynomial, start value and message |
| Crc.CrcConcat | tools/genwqe_vpd_common.c:346-346 | the checksum of a text continues that of its beginning |
| Crc.LinesLikeWhole | tools/genwqe_vpd_common.c:201-346 | the checksum carried over lines is that of the whole buffer |
| Crc.OwnChecksumGivesZero | tools/genwqe_vpdconv.c:193-200 | a message followed by its own checksum has checksum 0 |
| Crc.WordChangeDetected | lib/libcard.c:1080-1092 | a change within four adjacent bytes changes the checksum |
| Crc.DivisionStep | tools/genwqe_vpd_common.c:57-62 | one step of the division subtracts the polynomial exactly if the top bit and the bit of the message differ |
| Crc.DivisionOrder | tools/genwqe_vpd_common.c:67-78 | the bits of each byte are divided from its highest to its lowest |
| Crc.Polynomials | lib/libcard.c:1080-1092 | the powers of x in both polynomials |
| Crc.DocumentedExample | lib/libcard.c:1084-1086 | the checksum of the documented example is the documented one |
| Vpd.VpdRoundTrip | tools/genwqe_vpd_common.c:95-365 | for every table and image of its layout whose lines fit in the reader's buffer the printed form is read back to the same bytes, with success |
| Vpd.LongFieldMisread | tools/genwqe_vpd_common.c:205-345 | the line of a hexadecimal field of 249 or 251 to 255 bytes is cut, and read with success to content that is moved and lacks its end |
| Vpd.ReadsCsv | tools/genwqe_vpd_common.c:205-355 | line by line the reader recovers the records a printed text was made from |
| Vpd.ReadsLines | tools/genwqe_vpd_common.c:205-355 | the same for any first part of a text, behind which reading goes on with the next table line |
| Vpd.WrongLineRefused | tools/genwqe_vpd_common.c:227-335 | behind any lines printed for the table, a line with another key, length or mode, or with content that does not fit, is refused, whatever follows |
| Vpd.MissingLineRefused | tools/genwqe_vpd_common.c:355-365 | a text that ends before the table does is refused |
| Vpd.AcceptedIsImage | tools/genwqe_vpd_common.c:205-365 | for every text, success means that the output is an image of the whole table with the right version |
| Vpd.LineVerdict | tools/genwqe_vpd_common.c:223-342 | from its columns alone: when any line is refused, when it is skipped, and which record it gives otherwise |
| Vpd.FourthColumn | tools/genwqe_vpd_common.c:262-307 | text is padded behind, digits in front, and longer content, another mode or a wrong version is refused |
| Vpd.FgetsText | tools/genwqe_vpd_common.c:205-205 | a line ends behind its newline, with the text, or after 511 characters |
| Vpd.PrintsImage | tools/genwqe_vpd_common.c:105-154 | an image with the right heads and version is printed completely |
| Vpd.PrintedIsImage | tools/genwqe_vpd_common.c:105-154 | what is printed is an image of the table, and it is printed completely |
| Vpd.LineText | tools/genwqe_vpd_common.c:128-152 | quotes and commas of a printed line, its mode and its content |
| Vpd.RecordText | tools/genwqe_vpd_common.c:229-261 | two bytes of key, one of length, one of mode, and the content |
| Vpd.LineRoundTrip | tools/genwqe_vpd_common.c:223-330 | the character loop over a printed line recovers key, length, mode and content |
| Vpd.HexRoundTrip | tools/genwqe_vpd_common.c:272-285 | the hexadecimal digits printed for bytes are converted back to them |
| Vpd.HexDigits | tools/genwqe_vpd_common.c:272-285 | counted from the end, digit 2k is the lower and digit 2k + 1 the upper half of byte k |
| Vpd.HexValues | tools/genwqe_vpd_common.c:80-86 | the values of digits, small and capital letters |
| Vpd.PairText | tools/genwqe_vpd_common.c:149-149 | the two digits of a byte, with small letters |
| Vpd.DecRoundTrip | tools/genwqe_vpd_common.c:244-253 | the printed length is scanned back |
| Vpd.DecText | tools/genwqe_vpd_common.c:128-128 | the last digit is the rest of the division by ten, and the digits before it are the quotient |
| Vpd.ScanText | tools/genwqe_vpd_common.c:246-246 | blanks in front are passed over, and a sign is taken |
| Vpd.ShownText | tools/genwqe_vpd_common.c:267-271 | text loses its zero padding when printed and gets it back when read |
| Vpd.Bin2Csv | tools/genwqe_vpd_common.c:95-164 | the image is printed if and only if every record has the head the table asks for and the first one the version |
| Vpd.ConvertHex | tools/genwqe_vpd_common.c:272-285 | the digits of a token are paired from its end and stored right aligned |
| Vpd.FieldEnd | tools/genwqe_vpd_common.c:227-319 | the checks and conversions at the end of each field |
| Vpd.ReadLine | tools/genwqe_vpd_common.c:211-339 | one line is refused, skipped or turned into a record |
| Vpd.Csv2Bin | tools/genwqe_vpd_common.c:178-365 | a text is read as specified, and the checksum carried over its lines, from the start value 0xffffffff, is that of the output |
| Adler.Adler32 | lib/libzHW.c:664-676 | the loop computes the checksum function |
| Adler.ChecksumClosedForm | lib/libzHW.c:664-676 | both halves are the sums of the standard modulo 65521 |
| Adler.IdClosedForm | lib/inflate.c:1455-1458 | the same for the identifier of a dictionary, byte by byte |
| Adler.ChecksumConcat | lib/libzHW.c:664-676 | the checksum of a text continues that of its beginning |

## Left out

- The card, its registers, DMA, interrupts and the compression itself: an oracle with the contract written in `DeflateSpec.Stream.Continues`, `InflateSpec.Store.Sensible` and `Inflate.InflateStream.Fits`.
- Deflate.DeflateStream.Deflate: the second attempt that follows one without saving the dictionary (lib/deflate.c:741-792) is not modelled.
- HeaderProofs.GzipHeaderExactIff: extra data of 65536 bytes and more are not considered; they pass the length test only if the lengths wrap in 32 bits, and their length field does not hold their length.
- Framing.AcceptedHeaderFits: a single text of 4 GiB or more, whose length the source truncates to 32 bits, is not modelled.
- Inflate.InflateStream.Request: requires that what must be kept fits in the area and that a cut stored block is reported with 40 header bits, as the source assumes of the card.
- ZedcInflate.Session.Inflate: after a stream error nothing is promised; the block-boundary signal and the second attempt without dictionary are not modelled.
- StreamEnd.CheckStreamEnd: the adjustment of the input pointer after a detected end is not modelled.
- StreamEnd.RequestAndScan: the scan behind a final end of block, with output still pending, is not considered.
- Vpd.VpdRoundTrip: hexadecimal fields of 249 bytes and more are excluded, because their lines exceed the 512-byte buffer of the reader; `Vpd.LongFieldMisread` says what becomes of them behind the first line, except for 250 bytes, where the rest of the line is taken for a key.
- Staging.HwState.Inflate: followed for a given number of passes, because its termination depends on progress by the card; the pending-output branch that does not advance the output pointer is kept, with a count of its bytes and no claim about where they go.
- Staging.HwState.Deflate: the card's error codes are not examined by the source in buffered mode, and so neither here.
- HeaderParser.ParserState.SetDictionary: the copy into the workspace is not modelled.
- The contents of the gzip header CRC, which is written as a dummy and not checked; the XFL byte is not a copy of the caller's flags.
- Dictionary pages and lengths, except as the place of pending output.
- Wall-clock timeouts: whether a command has waited long enough is a free choice at each completion.
- Allocation, handle caching, device selection, stream copies, tracing, statistics, tools and daemons: dispatch or thin members.
- CardLists.Cards.HealthCheck: the state array of the cards, their reopening and the device list without redundancy are not modelled; which cards are unusable is a parameter. No descriptor is listed twice, since the system does not hand out an open one.
- At most one execute per handle is under way at a time, as the library's callers ensure.
- Vpd.Csv2Bin: requires lines of at least two characters without zeros and no further record behind the last table line, where the source reads outside its buffers; the checksum found in the text is not modelled.
- Vpd.Bin2Csv: requires an image of the size of the table, which its caller checks.
