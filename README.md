# STM32 bootloader USART protocol, host side

This project models the host side of the STM32 system-memory bootloader serial
protocol (ST application note AN3155, "USART protocol used in the STM32
bootloader", section 3 "Bootloader command set") as two command engines:

- `src/stm32.c`: the newer engine, with single-block read and write, a 16-bit page-list erase and the protection commands;
- `trunk/src/stm32.c`: the older engine, with chunked read and write, buffer-checked queries and an 8-bit extended erase.

The serial line is an abstract transport. `Link.Port` is a class with three fields:

- `sent`: the log of bytes written;
- `replies`: a scripted queue of reply events, each either a byte or a failed read;
- `writeFails`: a flag under which every write fails.

Each bootloader operation is a method on a `Port`. Its postcondition gives the status it returns and the new state of the port, and both are described by an exchange:

- An exchange is a list of steps: send a frame; await ACK, with the status a NACK means at that point; receive n raw bytes; poll-await ACK, the erase busy-wait; or refuse an argument before anything is written.
- The interpreter `Link.Exec` gives the meaning of an exchange.
- `Link.Port.Execute` performs an exchange step by step and is proved to match `Exec`.

The frame layouts are pure functions over `seq<bv8>`, with lemmas that decode them and that show their checksums cancel. These frames are:

- the ones'-complement command frame;
- the big-endian address frame with its XOR checksum;
- the `n-1` length frame;
- the payload frame;
- the 16-bit page-list frame;
- the special-erase frame.

Modules:

- `Frames`: byte-level frame layouts, checksums and their decoding lemmas.
- `Link`: the transport class `Port`, the exchange language and its interpreter, and generic lemmas about exchanges (prefix of what is written, concatenation, fully acknowledged runs).
- `Stm32`: the engine of `src/stm32.c`.
- `Legacy`: the engine of `trunk/src/stm32.c`. Read and write loop over 256-byte chunks; read stores each chunk into the caller's array; the queries check the caller's buffer size; and the 8-bit extended erase is modelled twice, as written and corrected (see Findings).

Status codes are `Ok | Serial | Protocol | InvalidArgument | Rdp`, in the order of `stm32_errors_t`.

## Model

| member | source | states |
|---|---|---|
| Frames.SpecialCode | src/stm32.c:421-424 | mass erase maps to 0xFFFF, bank 1 to 0xFFFE and bank 2 to 0xFFFD, the reserved codes of src/stm32.c:42-44 |
| Frames.PageBytes | src/stm32.c:389-400 | the page bytes are two per page |
| Frames.XorFoldAppend | src/stm32.c:331-334 | the XOR checksum of a concatenation is the XOR of the checksums of its parts |
| Frames.XorFoldUpdate | src/stm32.c:331-334 | XOR-ing one byte of a frame with m changes its checksum by exactly m |
| Frames.PayloadFrameChecks | src/stm32.c:326-335 | the frame `[n-1, data…, x]` is two bytes longer than the data and its bytes XOR to zero |
| Frames.CorruptionDetected | src/stm32.c:326-335 | in a frame whose bytes XOR to zero, any single corrupted byte makes the XOR nonzero |
| Frames.SingleBitFlipDetected | src/stm32.c:326-335 | flipping any one bit of any byte of a payload frame is detected by its checksum |
| Frames.CommandFrameChecks | src/stm32.c:46-60 | a command frame is two bytes, the opcode then its ones' complement, so the two XOR to 0xFF |
| Frames.AddressBytesDecode | src/stm32.c:230-235 | the four address bytes read big-endian give back the address |
| Frames.AddressFrameDecodes | src/stm32.c:230-235 | the address frame is 5 bytes, its first four decode big-endian to the address, and all five XOR to zero |
| Frames.FourByteChecksum | src/stm32.c:235 | appending the XOR of four bytes makes the five bytes XOR to zero |
| Frames.LengthFrameDecodes | src/stm32.c:252-253 | the length frame for n in 1..256 is `[n-1, complement]`: its first byte plus one is n and the two bytes XOR to 0xFF |
| Frames.HiLoDecodes | src/stm32.c:377-378 | the high and low bytes of a 16-bit value, read big-endian, give back the value |
| Frames.PageBytesStep | src/stm32.c:389-400 | appending one page to the list appends exactly its high and low bytes |
| Frames.PageBytesAt | src/stm32.c:389-400 | page i sits at bytes 2i and 2i+1 of the page bytes, high byte first |
| Frames.PageListFrameLayout | src/stm32.c:377-403 | the page-list frame is 2·pages+3 bytes: the big-endian count−1, then each page big-endian in order |
| Frames.PageListFrameChecks | src/stm32.c:380-403 | all bytes of the page-list frame, checksum included, XOR to zero |
| Frames.PageListFrameDecodes | src/stm32.c:377-403 | the page-list frame decodes back to the page count and every page, and its checksum cancels |
| Frames.PageCountIsNeverSpecial | src/stm32.c:359-361 | once the count checks pass, the count field of a page-list frame never equals a special-erase code |
| Frames.SpecialEraseFrameDecodes | src/stm32.c:443-454 | the special-erase frame is 3 bytes, its first two decode big-endian to the erase type's code, and it XORs to zero |
| Frames.BuildPayloadFrame | src/stm32.c:326-335 | the loop that folds the checksum builds exactly the payload frame |
| Frames.BuildPageListFrame | src/stm32.c:377-403 | the loop over the pages builds exactly the page-list frame |
| Link.Take | trunk/src/serial.c:72-95 | a read of n bytes succeeds exactly when n bytes arrive, and then consumes exactly their events; it never returns more than n bytes |
| Link.Poll | src/stm32.c:407 | the busy-wait read succeeds with one byte that was in the queue, or fails only when every remaining event is a failed read |
| Link.TakeEvents | trunk/src/serial.c:72-95 | reading as many bytes as d holds from a queue that starts with d returns d and leaves the rest |
| Link.PollSkipsFailures | src/stm32.c:407 | the busy-wait skips any number of failed reads and returns the first byte |
| Link.Exec | src/stm32.c:46-60 | a run never changes the write-failure flag and returns at most the bytes its exchange receives, exactly those when it ends Ok |
| Link.ExecCons | src/stm32.c:46-60 | an exchange runs its first step and stops at the first step that does not end Ok |
| Link.ExecAppend | trunk/src/stm32.c:264-330 | running two exchanges back to back is running the first, then, if it ended Ok, the second on the resulting link |
| Link.ExecWritesPlanFrames | src/stm32.c:46-60 | a run only appends to the sent log, what it appends is a prefix of the exchange's frames, and all of them when it ends Ok |
| Link.ExecCompletes | src/stm32.c:46-60 | when every await is answered by ACK and every receive by its bytes, the run ends Ok with those bytes, having sent every frame and consumed exactly that script |
| Link.CompletesHead | src/stm32.c:46-60 | under a fully acknowledged script the first step ends Ok with its share of the bytes |
| Link.CompletesTail | src/stm32.c:46-60 | a first step and a rest that both complete make the whole exchange complete |
| Link.RejectOnly | src/stm32.c:213-214 | a refused argument returns its status with the link untouched |
| Link.ThenCounts | src/stm32.c:46-60 | a handshake receives no payload bytes and sends its frame before the rest |
| Link.ExecThen | src/stm32.c:46-60 | a handshake gives Serial on a failed write or read, continues on ACK, gives the NACK's status on NACK and Protocol on any other byte |
| Link.AwaitStep | src/stm32.c:223-227 | an await consumes one reply: ACK continues, NACK gives the given status, any other byte Protocol, a failed read Serial |
| Link.ThenAck | src/stm32.c:46-60 | an ACK after a successfully written frame continues with the rest of the exchange |
| Link.ThenRefused | src/stm32.c:223-227 | a non-ACK byte after a frame ends the run with the NACK's status or Protocol, after writing only that frame |
| Link.ReceiveThen | src/stm32.c:270 | a receive of as many bytes as d holds takes d from the queue and prefixes it to the rest of the run |
| Link.ReceiveByte | src/stm32.c:95-97 | a one-byte receive takes that byte and prefixes it to the rest of the run |
| Link.ReceiveLast | src/stm32.c:270-275 | a final receive returns the bytes it reads and ends Ok |
| Link.AwaitLast | src/stm32.c:342-345 | a final await ends Ok on ACK and with the NACK's status or Protocol otherwise |
| Link.SendBusyReply | src/stm32.c:403-412 | after the final frame, any number of failed reads followed by a byte gives Ok on ACK and Protocol on anything else |
| Link.Port.constructor | trunk/src/serial.c:43-51 | a new port has an empty sent log, the given reply script and the given write behaviour |
| Link.Port.Write | trunk/src/serial.c:97-119 | a write appends the frame to the sent log, or fails and leaves the port unchanged |
| Link.Port.Read | trunk/src/serial.c:72-95 | a read of n bytes consumes the script as `Take` says and leaves the sent log alone |
| Link.Port.PollByte | src/stm32.c:407 | the busy-wait read consumes the script as `Poll` says |
| Link.Port.Perform | src/stm32.c:46-60 | performing one step on the port has the effect `StepOnce` gives it |
| Link.Port.Execute | src/stm32.c:46-60 | performing an exchange step by step has the status, data and final port state `Exec` gives it |
| Stm32.GetHeadCounts | src/stm32.c:86-97 | the get and get_id heads receive exactly the one count byte |
| Stm32.GetReplyLayout | src/stm32.c:102-115 | the count byte N of the get reply is the number of opcodes after the version byte |
| Stm32.GetBodyCounts | src/stm32.c:102-122 | the get body receives 1+N bytes, and the get_id body receives (N+1) mod 256 |
| Stm32.GetPrsCounts | src/stm32.c:143-157 | get_prs receives exactly three bytes |
| Stm32.Init | src/stm32.c:62-77 | init has the status and port effect of the autobaud exchange |
| Stm32.Get | src/stm32.c:79-125 | get returns the status and port of the get run; the version holds its byte once that byte was read, even if a later read fails; on Ok the N opcodes the device reported are returned |
| Stm32.GetPrs | src/stm32.c:127-163 | get_prs returns the status and port of its exchange; each protection counter holds its byte once that byte was read, even if a later read fails, and on Ok both were read |
| Stm32.GetId | src/stm32.c:165-205 | get_id returns the status and port of its run and, on Ok, the (N+1) mod 256 identifier bytes that follow the count byte |
| Stm32.Read | src/stm32.c:207-276 | read has the status, data and port effect of its plan: refused sizes, then command, address, length and raw bytes |
| Stm32.Write | src/stm32.c:278-349 | write has the status and port effect of its plan: refused sizes or alignment, then command, address and payload frame |
| Stm32.ExtendedErase | src/stm32.c:351-413 | the page-list erase has the status and port effect of its plan: refused counts, then command, page-list frame and busy-wait |
| Stm32.ExtendedEraseSpecial | src/stm32.c:415-463 | the special erase sends the command and the special-erase frame, then busy-waits |
| Stm32.WriteProtect | src/stm32.c:465-515 | write_protect has the status and port effect of its plan: refused counts, then command and payload frame |
| Stm32.WriteUnprotect | src/stm32.c:517-542 | write_unprotect sends its command, NACK meaning RDP, then awaits the confirming ACK |
| Stm32.ReadoutProtect | src/stm32.c:544-570 | readout_protect sends its command, NACK meaning RDP, then awaits the confirming ACK |
| Stm32.ReadoutUnprotect | src/stm32.c:572-593 | readout_unprotect sends its command, any non-ACK meaning Protocol, then awaits the confirming ACK |
| Stm32.CommandComesFirst | src/stm32.c:46-60 | every command either fails to write, and then ends Serial with nothing changed, or has written the 2-byte command frame before anything else |
| Stm32.AcceptedIsNotRefused | src/stm32.c:46-60 | a command exchange never ends as a silent InvalidArgument refusal |
| Stm32.InitOutcome | src/stm32.c:62-77 | init writes 0x7F; it is Ok exactly when the reply is ACK, Protocol on any other byte, and Serial when the write or the read fails |
| Stm32.ReadRejects | src/stm32.c:213-214 | read ends InvalidArgument with the link untouched if and only if the size is 0 or above 256 |
| Stm32.ReadCompletes | src/stm32.c:216-275 | with three ACKs and n bytes in reply, read returns exactly those n bytes after sending command, address frame and length frame, and reads no trailing ACK |
| Stm32.ReadRefused | src/stm32.c:216-258 | a NACK at the command gives RDP, at the address InvalidArgument and at the length RDP; any other non-ACK gives Protocol; each after writing only the frames up to that point |
| Stm32.WriteRejects | src/stm32.c:283-288 | write ends InvalidArgument with the link untouched if and only if the size is 0 or above 256 or the address is not a multiple of 4 |
| Stm32.WriteOutcome | src/stm32.c:290-349 | after two ACKs write sends command, address and the n+2 byte payload frame, and is Ok exactly when the last reply is ACK |
| Stm32.WriteRefused | src/stm32.c:290-323 | a NACK at the write command gives RDP and at the address InvalidArgument; other non-ACKs give Protocol |
| Stm32.EraseShapedOutcome | src/stm32.c:363-412 | an erase refused at the command gives RDP or Protocol; once accepted it sends its frame, skips failed reads and is Ok exactly on ACK |
| Stm32.EraseRejects | src/stm32.c:356-361 | the page-list erase ends InvalidArgument with the link untouched if and only if the count is 0 or count−1 is a special-erase code |
| Stm32.EraseOutcome | src/stm32.c:363-412 | an accepted page-list erase sends command and page-list frame and is Ok exactly when the first byte after the failed reads is ACK |
| Stm32.SpecialEraseOutcome | src/stm32.c:429-462 | an accepted special erase sends command and special-erase frame and is Ok exactly when the first byte after the failed reads is ACK |
| Stm32.WriteProtectRejects | src/stm32.c:470-471 | write_protect ends InvalidArgument with the link untouched if and only if the page count is 0 or above 256 |
| Stm32.WriteProtectOutcome | src/stm32.c:473-514 | write_protect gives RDP on NACK at the command; once accepted it sends the payload frame and is Ok exactly on ACK |
| Stm32.ConfirmedOutcome | src/stm32.c:517-542 | a confirmed command gives its NACK status or Protocol when refused and, once accepted, is Ok exactly when the second reply is ACK |
| Stm32.WriteUnprotectOutcome | src/stm32.c:517-542 | write_unprotect writes `[0x73, 0x8C]`; NACK gives RDP; after ACK the confirmation decides Ok or Protocol |
| Stm32.ReadoutProtectOutcome | src/stm32.c:544-570 | readout_protect writes `[0x82, 0x7D]`; NACK gives RDP; after ACK the confirmation decides Ok or Protocol |
| Stm32.ReadoutUnprotectOutcome | src/stm32.c:572-593 | readout_unprotect writes `[0x92, 0x6D]`; NACK gives Protocol, not RDP; after ACK the confirmation decides Ok or Protocol |
| Stm32.GetOutcome | src/stm32.c:79-125 | get gives Protocol on any non-ACK, NACK included; with a well-formed reply it is Ok with the count, version and opcodes |
| Stm32.GetCompletes | src/stm32.c:79-125 | a well-formed get reply yields Ok with the count byte, the version and exactly the N opcodes, consuming the closing ACK |
| Stm32.CountedHead | src/stm32.c:86-97 | command, ACK and count byte give Ok with that byte after writing only the command frame |
| Stm32.GetBodyCompletes | src/stm32.c:104-122 | version, N opcodes and ACK give Ok with the version and the opcodes |
| Stm32.GetPrsOutcome | src/stm32.c:127-163 | get_prs gives Protocol on any non-ACK; with a full reply it is Ok with version, rpdc and rpec |
| Stm32.PrsCounters | src/stm32.c:143-160 | the get_prs body reads version, rpdc and rpec in that order, then the ACK |
| Stm32.GetIdOutcome | src/stm32.c:165-205 | get_id gives Protocol on any non-ACK; with N and (N+1) mod 256 identifier bytes it is Ok with them |
| Stm32.GetIdLengthWraps | src/stm32.c:188-191 | a count byte of 0xFF makes get_id read no identifier bytes at all, since N+1 wraps to 0 |
| Legacy.Chunks | trunk/src/stm32.c:264-276 | every chunk is 1 to 256 bytes and lies inside the part not yet transferred |
| Legacy.ChunksLayout | trunk/src/stm32.c:264-286 | chunk k starts at offset 256·k, carries the address start + 256·k mod 2^32 and has size min(rest, 256); there are ⌈size/256⌉ chunks |
| Legacy.ChunksCover | trunk/src/stm32.c:264-330 | the chunk sizes sum to exactly the requested size |
| Legacy.ChunksStep | trunk/src/stm32.c:264-330 | the first chunk is at the current offset and the rest are the chunks after it |
| Legacy.AlignmentCarries | trunk/src/stm32.c:351-352 | every chunk address has the same remainder mod 4 as the start address |
| Legacy.ReadExchangeCounts | trunk/src/stm32.c:267-316 | one read chunk receives exactly its size in bytes |
| Legacy.ReadStepsCount | trunk/src/stm32.c:264-330 | the chunked read exchange receives the sum of the chunk sizes |
| Legacy.ReadPlanCovers | trunk/src/stm32.c:264-330 | a chunked read receives exactly the requested size, returns that many bytes when Ok, and a size of 0 sends nothing and is Ok |
| Legacy.ReadStepsNext | trunk/src/stm32.c:264-330 | the chunked read is the full single-chunk read exchange at the current address, then the remaining chunks |
| Legacy.ReadFrom | trunk/src/stm32.c:264-330 | reading from an offset never returns more bytes than remain |
| Legacy.ReadFromPlan | trunk/src/stm32.c:264-330 | the loop's chunk-by-chunk recursion is the same run as the whole chunked read exchange |
| Legacy.ReadPlanStep | trunk/src/stm32.c:264-330 | the chunked read stops at the first chunk that fails and otherwise continues at the next offset |
| Legacy.Store | trunk/src/stm32.c:326 | a chunk is copied into the array at its offset and nothing else in the array changes |
| Legacy.Read | trunk/src/stm32.c:252-333 | the chunked read returns the run's status and leaves the port as the run does; the array holds every byte received, from offset 0, and the rest of the array is unchanged, also when a later chunk fails |
| Legacy.ReadNext | trunk/src/stm32.c:267-329 | one loop iteration performs one chunk and either ends the read or continues at the next offset |
| Legacy.WriteStepsUnaligned | trunk/src/stm32.c:351-352 | a chunk at an unaligned address is an InvalidArgument refusal |
| Legacy.WriteStepsAligned | trunk/src/stm32.c:355-416 | a chunk at an aligned address is the full single-block write of its slice of the data |
| Legacy.WriteExchangeCounts | trunk/src/stm32.c:355-416 | a write chunk receives no payload bytes |
| Legacy.RejectFirst | trunk/src/stm32.c:351-352 | a refusal ends the exchange with the link untouched |
| Legacy.WriteBlockRefused | trunk/src/stm32.c:351-352 | an unaligned chunk ends the write with InvalidArgument and nothing more written |
| Legacy.WriteBlockSent | trunk/src/stm32.c:355-419 | an aligned chunk runs its write exchange and, if Ok, the write continues at the next offset |
| Legacy.WriteNext | trunk/src/stm32.c:351-419 | one loop iteration either ends the write with the chunk's status or continues at the next offset |
| Legacy.Write | trunk/src/stm32.c:335-424 | the chunked write returns the status and port of the chunk-by-chunk run |
| Legacy.WriteExchangeNoReject | trunk/src/stm32.c:355-416 | an accepted write chunk contains no refusal |
| Legacy.WriteStepsReject | trunk/src/stm32.c:348-420 | the remaining chunks contain a refusal exactly when the current chunk is unaligned or a later one is |
| Legacy.RejectedHead | trunk/src/stm32.c:351-352 | an unaligned chunk puts a refusal in the write |
| Legacy.AcceptedHead | trunk/src/stm32.c:355-416 | an aligned chunk adds no refusal to the write |
| Legacy.WriteAlignment | trunk/src/stm32.c:351-352 | the chunked write contains no alignment refusal if and only if the data is empty or the start address is a multiple of 4 |
| Legacy.WriteAlignmentFrom | trunk/src/stm32.c:348-420 | with all chunk addresses aligned like the start, the remaining chunks contain no refusal if and only if none remain or the start is aligned |
| Legacy.RejectChain | trunk/src/stm32.c:348-420 | alignment of the start decides whether this chunk and all later ones are accepted |
| Legacy.AlignedTail | trunk/src/stm32.c:348-420 | chunk alignment like the start carries over to the chunks after the current one |
| Legacy.WriteUnalignedRejected | trunk/src/stm32.c:351-352 | a non-empty write at an unaligned start fails with InvalidArgument before writing anything |
| Legacy.Init | trunk/src/stm32.c:41-56 | init has the status and port effect of the autobaud exchange |
| Legacy.GetPrs | trunk/src/stm32.c:163-202 | get_prs returns the status and port of its exchange; each protection counter holds its byte once that byte was read, even if a later read fails, and on Ok both were read |
| Legacy.GetBootloaderVersion | trunk/src/stm32.c:58-106 | get_bootloader_version runs the full get exchange and returns the version byte it read |
| Legacy.SupportedHeadCounts | trunk/src/stm32.c:118-142 | get_supported_commands reads two bytes, the count and the version, before checking the buffer |
| Legacy.CountedBody | trunk/src/stm32.c:147-158 | reading a counted body then the ACK keeps the bytes read even when the ACK is wrong |
| Legacy.ReadCountedInto | trunk/src/stm32.c:147-158 | the received bytes are stored at the head of the array and their number is reported, also when the closing ACK is wrong |
| Legacy.GetSupportedCommands | trunk/src/stm32.c:108-161 | get_supported_commands has the status and port of its run, stores the opcodes at the head of the caller's array and reports their count once they are all read |
| Legacy.GetId | trunk/src/stm32.c:204-250 | get_id has the status and port of its run, stores the identifier at the head of the caller's array and reports (N+1) mod 256 once it is read |
| Legacy.SupportedHeadReplies | trunk/src/stm32.c:118-142 | ACK, count and version give Ok with those two bytes after writing only the get command |
| Legacy.SupportedTooSmall | trunk/src/stm32.c:144-145 | a buffer smaller than the reported count gives InvalidArgument after the count and version bytes are consumed |
| Legacy.SupportedCompletes | trunk/src/stm32.c:108-161 | with a large enough buffer a well-formed reply gives Ok with the count, version and opcodes |
| Legacy.SupportedMatchesGet | trunk/src/stm32.c:108-161 | with a buffer of at least 255 the exchange is the same as the newer engine's get |
| Legacy.IdTooSmall | trunk/src/stm32.c:225-234 | a buffer smaller than (N+1) mod 256 gives InvalidArgument after only the count byte is consumed |
| Legacy.IdMatchesGetId | trunk/src/stm32.c:204-250 | with a buffer of at least 255 the exchange is the same as the newer engine's get_id |
| Legacy.ExtendedEraseAsWritten | trunk/src/stm32.c:426-473 | the erase as written refuses 0xFF pages, sends the command and reads one reply; the page-list frame it builds is never written |
| Legacy.ExtendedErase | trunk/src/stm32.c:426-473 | the corrected erase sends the command, then the built page-list frame, and awaits its ACK |
| Legacy.ErasePageListNeverSent | trunk/src/stm32.c:454-472 | whatever the replies, the erase as written appends at most the 2-byte command frame to the sent log |
| Legacy.EraseAcceptedWithoutPageList | trunk/src/stm32.c:454-472 | with two ACKs in reply the erase as written reports Ok having sent only the command frame |
| Legacy.EraseSendsPageList | trunk/src/stm32.c:454-470 | the corrected erase reports Ok only for fewer than 255 pages and only after the command and the full page-list frame were sent; that frame is two bytes longer than the page list and XORs to zero |
| Legacy.EraseCompletes | trunk/src/stm32.c:436-470 | with two ACKs in reply the corrected erase is Ok after sending command and page-list frame |

## Left out

- The serial driver (`trunk/src/serial.c`): opening the device, `termios` setup, flushing, DTR/RTS signalling and hex tracing are left out. The transport is the abstract `Port`:
  - a write appends to the log or fails;
  - a read pops scripted events or fails;
  - a read that fails part-way keeps the bytes read so far, as `serial_read` does.
- Whether writes fail is a fixed flag of the port, not an event in the script. The source writes three frames in several pieces: the page-list frame of `src/stm32.c:380-403`, the special-erase frame (`src/stm32.c:449`, `:453`) and the write-protect frame (`src/stm32.c:490`, `:494`, `:503`). Under a fixed flag that split cannot be observed, so the model sends each as one frame.
- Timing, read timeouts, autobaud timing and concurrency are left out. The model is sequential.
- The erase busy-wait (`src/stm32.c:407`, `:457`) retries the read until it succeeds. On a live link nothing bounds it. The model's reply script is finite, so when the script runs out the busy-wait ends Serial where the device would keep the host spinning. Termination on a live link is not claimed.
- The static return buffers of `src/stm32.c` (get, get_id, read) are returned as fresh sequences. The pointers the caller receives, and the aliasing between calls, are not modelled.
- The checks `buffer[0] < 0` on an unsigned byte are always false and are omitted (`src/stm32.c:99`, `:185`; `trunk/src/stm32.c:82`, `:132`, `:228`).
- The two headers appear swapped. `trunk/src/stm32.h` declares the API that `src/stm32.c` implements, including the erase-type enum, and `src/stm32.h` declares the API of `trunk/src/stm32.c`. The model follows the C files.
- `Stm32.ExtendedEraseSpecial`: an `erase_type` outside the enum reaches the `default` branch of the switch at `src/stm32.c:421-427` and is refused. `EraseKind` has only the three enum values, so that branch cannot be represented.
- `Stm32.Get`, `Stm32.GetId`: on failure paths the source may already have filled the static buffer and the size output. The model carries what was read in the run's data instead of in those outputs.
- `Legacy.GetBootloaderVersion`, `Legacy.GetSupportedCommands`, `Legacy.GetId`, `Stm32.GetPrs`, `Legacy.GetPrs`: where the source leaves the caller's `version`, `size`, `rpdc` or `rpec` unwritten, the model returns 0, because Dafny out-parameters always have a value.
- `Legacy.ExtendedErase`: the corrected erase keeps the count byte of the source's build loop, which is `size` rather than `size - 1`.
- The code has no bound on the erase wait and no partially-applied status; it has five statuses, and the model has the same five.
- For a count byte N, both engines read N opcodes after the version byte (`src/stm32.c:102-111`, `trunk/src/stm32.c:135-148`), as AN3155 lays out; so does `Stm32.Get`.
- A failed chunked read reports only its status. The bytes of the chunks that arrived before the failure are already stored in the caller's array, as `Legacy.Read` states.
- The rejected page counts of `src/stm32.c:359-361` are computed in `int`. So `pages_size - 1` equals a reserved code only for `pages_size` 0xFFFE and 0xFFFF, and never wraps.

## Findings

| source | as written | input that shows it | evidently intended | confidence | as-written member | corrected member |
|---|---|---|---|---|---|---|
| trunk/src/stm32.c:454-472 | `stm32_extended_erase` builds `[size, pages…, XOR]` in a local buffer, never writes it, and then reads a single reply byte as the final ACK | any page list of fewer than 255 pages with the device replying `[ACK, ACK]`: the call returns OK having sent only the 2-byte command frame, so no page is named to the device | write the built page-list frame after the command ACK, then read its ACK | not executed | Legacy.EraseAcceptedWithoutPageList | Legacy.EraseSendsPageList |
