# Verified model of the usdr-lib algorithms

usdr-lib is a host library for software-defined radios. Most of it moves registers and buffers to and
from hardware; a dozen small algorithms in it carry properties that no single function shows. This
project models those algorithms and proves the properties.

**Firmware flash update** (`NorFlash`, `EspiErase`, `EspiFlash`, `XlnxBitstream`, `Base64`, `UsdrFlash`,
`ControllerUgen`, `ControllerUpload`). A NOR flash is a byte sequence: erasing sets bytes to 0xff,
programming ANDs bytes, and an address that runs over the end of a 256-byte page comes back to its start.
Every bus operation may fail, by an arbitrary fault pattern. What a driver procedure sends is a prefix of
a plan, all of it exactly if it succeeds; crash safety is proved for every prefix of the log, that is, for
a stop after any device command.

**Stream buffers** (`RingCircbuf`, `SoapyStream`, `RingBuffer`). The byte ring behind `readStream` is filled
by whole packets through its write pointer and drained in any sizes; what was delivered followed by what is
held is always what arrived. The semaphore ring is a machine over the steps of two threads, and every
property is proved over every interleaving.

**JSON** (`JsonDoc`, `JsonLex`, `JsonNumber`, `JsonTree`, `JsonPool`, `JsonBuffer`, `TinyJson`). The parser
works in place, without recursion, and keeps the parent of an open container in its sibling link. `JsonDoc`
says what a document is, how it is written byte by byte and what a node pool shows of it; the parser accepts
exactly the written documents and leaves nodes that show them. In between stands a recursive reader.

**The rest.** `Si2c` (a four-slot address table with transposing ranks), `Filter` and `FilterGain` (block FIR
filters, polyphase taps and the gain), `RegParser` and `GenH` (register fields and the C macros generated for them), `OptFunc`
(calibration searches), `Lms64c` (control packets). `Bits` and `Wrappers` hold what the others share.

Where a property fails for some inputs, the exact condition is proved beside it: `EraseCompletesIff`,
`WriteCrossing`, `CallKeepsIff`, `ReadTooLarge`, `DistinctIffPow2`, `DeadlineValidIff`, `TapsInsideIff`,
`CopyApartIff`, `PaceIff`, `GainKeptIff`, `PackOfUnpackIff`, `GetAfterSetIff`, `RangeInBoxIff`, `RatioInBoxIff`,
`RoundTripIff`, `BlocksAddUpIff`, `UpdateReadsIff`, `FitsAnyLevelIff`, `MasterEndsChainIff`, `GoldenGap` and
`GoldenUploadGap`.

How the parts of the model stand in for the source: `array` parameters and class fields are the C buffers,
structs and static variables that the code updates in place; `None` is the null pointer or `-1` result; a
`fault` or `script` function says how the calls into the hardware go; ghost fields record history.

## Model

| member | source | states |
|---|---|---|
| `NorFlash.ReplayOutside` | src/lib/ipblks/espi_flash.c:191-213 | commands confined to a range change no byte outside it, whatever their order |
| `NorFlash.ErasesOnlyBlank` | src/lib/ipblks/espi_flash.c:191-213 | without programs every byte keeps its value or becomes 0xff |
| `NorFlash.ProgramsKeepZero` | src/lib/ipblks/espi_flash.c:306-320 | without erases a zero byte stays zero: programming sets no bit |
| `EspiErase.EraseFlash` | src/lib/ipblks/espi_flash.c:240-303 | the erase loop sends a prefix of its plan, all of it on success; it succeeds exactly if the range can be tiled and no bus operation fails |
| `EspiErase.EraseUnit` | src/lib/ipblks/espi_flash.c:261-298 | one erase command goes out as write enable, erase, ready wait, or a prefix of these if an operation fails |
| `EspiErase.EraseCompletesIff` | src/lib/ipblks/espi_flash.c:246-294 | the loop reaches size zero exactly for the whole chip and for non-empty ranges of whole 4 KiB subsectors |
| `EspiErase.EraseEffect` | src/lib/ipblks/espi_flash.c:249-300 | an erase blanks exactly the whole subsectors of [addr, addr + size) in the 32-bit address space, nothing if the range does not start at one, and nothing else |
| `EspiErase.EraseEffectLinear` | src/lib/ipblks/espi_flash.c:249-300 | the same in plain addresses for a range that fits the chip |
| `EspiErase.ErasePlanShape` | src/lib/ipblks/espi_flash.c:252-298 | every erase is preceded by write enable and followed by a ready wait; nothing is programmed |
| `EspiErase.ErasePlanConfined` | src/lib/ipblks/espi_flash.c:261-294 | even an erase that gives up half way stays inside the range it was asked for |
| `EspiErase.EraseIsMinimal` | src/lib/ipblks/espi_flash.c:261-288 | no sequence of aligned 4 KiB and 64 KiB erases that covers exactly the range is shorter than the one sent |
| `EspiFlash.WriteEffect` | src/lib/ipblks/espi_flash.c:346-375 | programming in 128-byte chunks ANDs the data into flash in address order and touches nothing else, if no chunk crosses a page |
| `EspiFlash.WriteOnBlank` | src/lib/ipblks/espi_flash.c:346-375 | with the erase switched off, on blank flash, the range becomes the input and every other byte stays |
| `EspiFlash.WriteCommits` | src/lib/ipblks/espi_flash.c:346-375 | a write over blank flash that ends in a byte other than 0xff is complete exactly from its last program on |
| `EspiFlash.AlignedIsPageSafe` | src/lib/ipblks/espi_flash.c:346-349 | at a 128-aligned address no chunk crosses a page |
| `EspiFlash.WriteCrossing` | src/lib/ipblks/espi_flash.c:346-375 | page safety is exact: if some chunk crosses a page, writing zeros clears the first byte of that page, outside the range |
| `EspiFlash.WritePlanShape` | src/lib/ipblks/espi_flash.c:306-320 | every program command is preceded by write enable and followed by a ready wait; nothing is erased |
| `EspiFlash.FlashWriteEffect` | src/lib/ipblks/espi_flash.c:330-378 | an erasing write of whole subsectors makes the range equal the input, or with the header switched off all but a blank header; every other byte keeps its value |
| `EspiFlash.FlashWriteMasks` | src/lib/ipblks/espi_flash.c:330-378 | a write without erase ANDs the input into flash, all of it or all but its first 256 bytes |
| `EspiFlash.WriteFlash` | src/lib/ipblks/espi_flash.c:330-378 | sends a prefix of erase and programs, all on success; succeeds exactly if the erase can complete and nothing fails; the result is unassigned exactly when there is nothing to erase and nothing to program |
| `EspiFlash.ProgramLoop` | src/lib/ipblks/espi_flash.c:346-377 | the chunk loop sends a prefix of the write plan of its input, all of it on success |
| `EspiFlash.ReadFlash` | src/lib/ipblks/espi_flash.c:155-181 | on success the output is the flash contents of the range; only the range, rounded up to whole words, is overwritten |
| `XlnxBitstream.ParseHeader` | src/lib/ipblks/xlnx_bitstream.c:16-105 | the flag-driven loop computes the header that the packet list of the words has |
| `XlnxBitstream.ParseHeaderList` | src/lib/ipblks/xlnx_bitstream.c:27-104 | serialising a preamble, a sync word and any list of NOPs and type-1 writes and parsing it gives the last IDCODE, WBSTAR and AXSS, iprog if some CMD word is 15, success exactly if IDCODE and WBSTAR both occur and both bus words came before sync |
| `XlnxBitstream.DecodeEncode` | src/lib/ipblks/xlnx_bitstream.c:60-102 | the block scanner read as a decoder returns the packets that were serialised |
| `XlnxBitstream.EncodeDecode` | src/lib/ipblks/xlnx_bitstream.c:60-102 | and what it decodes serialises back to the words it read |
| `XlnxBitstream.AcceptedIsHeader` | src/lib/ipblks/xlnx_bitstream.c:51-104 | a header that is accepted is such a serialisation |
| `XlnxBitstream.AcceptedIff` | src/lib/ipblks/xlnx_bitstream.c:16-105 | the accepted headers word by word: 0xffffffff, 0x000000bb and 0x11220044 in any order, the last two at least once, the sync word 0xaa995566, then packets that write the registers 12 and 16 |
| `XlnxBitstream.Registers` | src/lib/ipblks/xlnx_bitstream.c:80-101 | CMD, IDCODE, AXSS and WBSTAR are the registers 4, 12, 13 and 16, and IPROG is command 15 |
| `XlnxBitstream.UsualHeaderParses` | src/lib/ipblks/xlnx_bitstream.c:16-105 | a header of the usual shape, given byte by byte, is read back as its device, address, user word and command |
| `XlnxBitstream.WordsOfBytes` | src/lib/ipblks/xlnx_bitstream.c:28-61 | the words of a buffer are its bytes, the most significant first |
| `XlnxBitstream.BlankPageRejected` | src/lib/ipblks/xlnx_bitstream.c:30-52 | an erased header page does not parse |
| `XlnxBitstream.CheckImage` | src/lib/ipblks/xlnx_bitstream.c:107-135 | the image check in full: a golden image passes exactly if it has the device id of the golden image in flash and jumps to the master image (IPROG set, WBSTAR the offset); a master image exactly if it has that device id and no address, and the golden image in flash has its offset, which is not zero |
| `XlnxBitstream.ReplaceableIff` | src/lib/ipblks/xlnx_bitstream.c:107-135 | the same as the boot chain: where the new image and the golden one jump to |
| `XlnxBitstream.MasterEndsChainIff` | src/lib/ipblks/xlnx_bitstream.c:126-133 | a master image that passes ends the boot chain exactly if it has no IPROG, which the check does not look at; with IPROG it starts over at the golden image |
| `Base64.RoundTrip` | src/lib/json_controller/base64.c:42-113 | decoding the encoding of any byte string gives it back |
| `Base64.EncodeLength` | src/lib/json_controller/base64.c:46-83 | the encoding has 4 * ceil(n / 3) characters |
| `Base64.DigitsByShifts` | src/lib/json_controller/base64.c:51-54 | the shifts and masks of the encoder are the base-64 digits of the 24-bit group (section 4 of RFC 4648) |
| `Base64.Alphabet` | src/lib/json_controller/base64.c:7-39 | the alphabet of section 4 of RFC 4648, written and read |
| `Base64.ReadsAs` | src/lib/json_controller/base64.c:7-36 | a character of the alphabet is read as its digit, one outside it as the letter A |
| `Base64.TestVectors` | src/lib/json_controller/base64.c:42-84 | the vectors "f" and "foobar" of section 10 of RFC 4648 |
| `Base64.SectorLength` | src/lib/json_controller/controller_ugen.c:122-131 | 256 bytes give the 344 characters the RPC demands, and they decode to the 256 bytes |
| `Base64.EncodeInto` | src/lib/json_controller/base64.c:42-84 | the encoder writes the encoding and a NUL, for inputs of at least two bytes |
| `Base64.DecodeInto` | src/lib/json_controller/base64.c:86-113 | the decoder writes the decoding, for any text |
| `UsdrFlash.MasterCrashSafe` | src/tools/usdr_flash.c:263-277 | stopped after any command of the master update, the header is blank or the body complete from the first erase on, and nothing outside the region changed; the whole update leaves exactly the image |
| `UsdrFlash.AcceptedMeansComplete` | src/lib/ipblks/xlnx_bitstream.c:27-52 | if the header found after such a crash parses, the flash is untouched or the body is complete |
| `UsdrFlash.GoldenCrashSafe` | src/tools/usdr_flash.c:247-262 | stopped after any command of the golden update, the old body is untouched or the new first subsector is in place |
| `UsdrFlash.GoldenGap` | src/tools/usdr_flash.c:247-262 | which is not the safety of a master image: for an image whose last byte and whose last byte of the first subsector show whether they are written, the new header stands over an incomplete body exactly after the prefixes from the last program of the first write to before the last program of the second |
| `UsdrFlash.Update` | src/tools/usdr_flash.c:151-305 | the whole write action: every state on the way is crash safe, nothing is sent unless the checks pass, exit code 0 exactly if they pass (given by the fields of the headers in flash and file), the offset of a master image is a multiple of 4 KiB and no operation fails; then flash is the padded image, reads back without error, and its headers form a boot chain |
| `UsdrFlash.WriteMaster` | src/tools/usdr_flash.c:264-276 | body first, header last; succeeds exactly for 4 KiB-aligned offsets without faults |
| `UsdrFlash.WriteGolden` | src/tools/usdr_flash.c:247-262 | first subsector, then the rest |
| `UsdrFlash.Check` | src/tools/usdr_flash.c:151-241 | which file is refused, found up to date (both user words are the running revision, and no force), or written, by the fields of the headers |
| `UsdrFlash.ChainInPlace` | src/tools/usdr_flash.c:178-241 | an image that passes the check and is put in its place: a golden header at 0 has IPROG, the offset of the master image and the device id that was there; a master header has that device id and no address, and the golden header points to it |
| `UsdrFlash.ImageByte` | src/tools/usdr_flash.c:128-147 | byte by byte, what is written: the file, the corrupted byte if asked for, and 0xff up to the next 64 KiB |
| `UsdrFlash.Compare` | src/tools/usdr_flash.c:290-300 | the page comparison counts no error exactly if the buffers agree |
| `ControllerUgen.Session.FlashErase` | src/lib/json_controller/controller_ugen.c:210-235 | an erase call opens a session exactly for non-empty whole-sector lengths inside the limit, with 32-bit wrap-around, and otherwise leaves none open |
| `ControllerUgen.Session.WriteSector` | src/lib/json_controller/controller_ugen.c:112-209 | the write call succeeds exactly if nothing fails, the text has 344 characters that decode to 256 bytes with the given sum, the offset lies before the wrapped end of the session, and either the session is validated or this is its first sector and the fields of the headers in flash and page fit (a golden image must be longer than 4096 bytes); what it sent is a prefix of its plan, and how the session ends up |
| `ControllerUgen.Session.Open` | src/lib/json_controller/controller_ugen.c:149-180 | the first sector checks the header, then erases; any failure closes the session; a refused header leaves flash untouched |
| `ControllerUgen.CheckFirmwareHeader` | src/lib/json_controller/controller_ugen.c:31-81 | the header check accepts exactly the pages the image check allows against the golden header in flash |
| `ControllerUgen.ReceivePage` | src/lib/json_controller/controller_ugen.c:122-142 | a request carries a sector exactly if it has 344 characters that decode to 256 bytes with the given sum |
| `ControllerUgen.SumAdds` | src/lib/json_controller/controller_ugen.c:134-142 | the checksum adds up the bytes |
| `ControllerUgen.ReadSector` | src/lib/json_controller/controller_ugen.c:88-111 | the reply of a flash read decodes to the 256 bytes in flash |
| `ControllerUgen.StoreKeepsHeader` | src/lib/json_controller/controller_ugen.c:189-195 | a sector neither of whose two programs goes to the header page of the master image leaves that page as it was at every moment |
| `ControllerUgen.StoreHitsHeader` | src/lib/json_controller/controller_ugen.c:189-195 | and any other sector, if it is zero, programs a blank header page |
| `ControllerUgen.GoldenCallPrefix` | src/lib/json_controller/controller_ugen.c:149-195 | a call on a golden session, stopped anywhere, blanks the header page of the master image or leaves it as it was, if its sector spares that page |
| `ControllerUgen.CallKeepsIff` | src/lib/json_controller/controller_ugen.c:149-205 | the offsets at which every call, with any contents and in any guarded state, keeps the header page but for programming it at the end of a master session are exactly 0 and those from 256 on in a master session, and in a golden one those whose two programs miss the page, which golden sectors near the master image do not |
| `ControllerUgen.CallGuard` | src/lib/json_controller/controller_ugen.c:144-205 | whatever becomes of a call at such an offset, on a master or a golden session, a validated master session has a blank header page, and only the call that ends a master session programs it: over the blank page, with the page the session holds, which a call that opens the session has had accepted before it erased the range; a golden call at any offset keeps the first of these |
| `ControllerUgen.ProgrammedIsInPlace` | src/lib/json_controller/controller_ugen.c:197-205 | a header written in full over the blank page is in place |
| `ControllerUgen.Serve` | src/lib/json_controller/controller_ugen.c:112-235 | for any sequence of calls on any chip with any faults: a call that does not carry a sector into the header page, in a session of which no earlier master call did, keeps that page but for programming it at the end of a master session; and, if no validated session was carried in, what is programmed then was validated against the golden header in flash, and the range erased, by a call of the same session |
| `ControllerUgen.HeaderValidatedNow` | src/lib/json_controller/controller_ugen.c:149-205 | what a call programs into the header page goes back to the call that opened the session |
| `ControllerUgen.HeldNext` | src/lib/json_controller/controller_ugen.c:149-235 | an open, validated master session holds the page of the call that opened it, with no erase call in between |
| `ControllerUpload.UploadMaster` | src/lib/json_controller/controller_ugen.c:112-209 | an in-order upload of a master image is crash safe at every command, succeeds exactly if the fields of its header and of the golden one fit and nothing fails, and then leaves exactly the padded image and a boot chain that leads to it |
| `ControllerUpload.UploadGolden` | src/lib/json_controller/controller_ugen.c:112-209 | an in-order upload of a golden image longer than 4096 bytes: after every command the old body is untouched or the new boot page is in place; it succeeds exactly if its header has IPROG, the offset of the master image and the device id of the one in flash and nothing fails, and then leaves exactly the padded image and a boot chain that leads to the master image |
| `ControllerUpload.GoldenUploadGap` | src/lib/json_controller/controller_ugen.c:149-195 | which is not the safety of a master upload: the new boot page stands over an incomplete image exactly from its last program to before the last program of the last sector |
| `ControllerUpload.MasterSectorSafe` | src/lib/json_controller/controller_ugen.c:149-205 | where an upload stands after any prefix of what one sector sends |
| `ControllerUpload.GoldenCallSafe` | src/lib/json_controller/controller_ugen.c:149-195 | after any prefix of what one call of a golden upload sends the old body is untouched or the new boot page is in place |
| `RingCircbuf.WrittenJoins` | src/lib/common/ring_circbuf.c:52-69 | what is written into free space joins the unread bytes at the end and leaves them unchanged |
| `RingCircbuf.WrittenLoses` | src/lib/common/ring_circbuf.c:52-69 | without room the oldest unread byte is replaced |
| `RingCircbuf.Circbuf.Read` | src/lib/common/ring_circbuf.c:30-50 | the two copies take the oldest bytes out, in order |
| `RingCircbuf.Circbuf.Write` | src/lib/common/ring_circbuf.c:52-69 | the two copies append the bytes |
| `RingCircbuf.Circbuf.ReadSpace` | src/lib/common/ring_circbuf.h:24-26 | the number of unread bytes |
| `RingCircbuf.Circbuf.WriteSpace` | src/lib/common/ring_circbuf.h:28-30 | what is left of the size |
| `SoapyStream.Stream.ReadStream` | src/soapysdr/usdr_soapy.cpp:1205-1297 | every read keeps delivered + held = arrived on all channels; on success the result is all that was asked for, or one packet if one will do, and on each channel the buffer starts with the next b bytes, b * pktsyms <= samples * pktbytes < (b + 1) * pktsyms, and the rest of it is unchanged; it succeeds exactly if none of its receives failed; a ring is made by the first read of another size than the packet size and by no other |
| `SoapyStream.SampleBytesCover` | src/soapysdr/usdr_soapy.cpp:1227-1227 | the bytes of n samples are the whole bytes of their share of a packet |
| `SoapyStream.BlockSizeIsFirst` | src/soapysdr/usdr_soapy.cpp:1263-1266 | the ring has the first of the sizes 16, 32, 64 ... packets that is at least twice the read |
| `SoapyStream.Stream.ReadJitter` | src/soapysdr/usdr_soapy.cpp:1225-1259 | the loop ends while packets arrive, takes in just as many as the read needs, and overwrites nothing unread |
| `SoapyStream.Stream.Receive` | src/soapysdr/usdr_soapy.cpp:1244-1256 | one packet joins every channel, a failed receive (which may leave anything at the write pointer) changes nothing |
| `SoapyStream.TakePacket` | src/soapysdr/usdr_soapy.cpp:1244-1256 | no packet crosses the buffer end and all channels stay in step |
| `SoapyStream.NoCrossing` | src/soapysdr/usdr_soapy.cpp:1247-1253 | a packet written at a multiple of its size never passes the end of a ring of whole packets |
| `SoapyStream.ReadTooLarge` | src/soapysdr/usdr_soapy.cpp:1234-1253 | the bound on the read size is exact: beyond it some packet replaces the oldest unread byte while the read still waits |
| `SoapyStream.FitsAnyLevelIff` | src/soapysdr/usdr_soapy.cpp:1234-1253 | a read can be served however full the ring is exactly if it and a packet less a byte fit into it |
| `SoapyStream.BlockFits` | src/soapysdr/usdr_soapy.cpp:1261-1275 | the ring that a read creates holds whole packets and has room for that read |
| `SoapyStream.LaterReadsFit` | src/soapysdr/usdr_soapy.cpp:1261-1275 | and for every later read of at most half its size, however full it is |
| `SoapyStream.RunReads` | src/soapysdr/usdr_soapy.cpp:1205-1297 | any run of reads of which the later ones ask for at most half of the ring that the first odd-sized one made is possible; a read succeeds exactly if its receives did; on every channel the bytes handed over are those of the samples of the successful reads, less than a byte off for each and exact if a sample is whole bytes, and they are the beginning of what arrived |
| `SoapyStream.WholeRun` | src/soapysdr/usdr_soapy.cpp:1227-1243 | if a sample is whole bytes a run hands over exactly the bytes of its samples |
| `RingBuffer.MaskIsMod` | src/lib/common/ring_buffer.c:50-54 | for a power of two of slots, masking the wrapped 32-bit index is the true index modulo the slots |
| `RingBuffer.DistinctIffPow2` | src/lib/common/ring_buffer.c:50-54 | slots of up to items consecutive indices are distinct exactly for powers of two |
| `RingBuffer.AnyInterleaving` | src/lib/common/ring_buffer.c:81-115 | after any interleaving: semaphores, threads inside a wait and slots in hand add up to items; each index is the number of slots its side has taken, cut to 32 bits, so slots are taken in turn; no slot is held by both sides; the consumer finds what was posted, once each, in order |
| `RingBuffer.StepSound` | src/lib/common/ring_buffer.c:81-115 | every step of either thread keeps this |
| `RingBuffer.NoDeadlock` | src/lib/common/ring_buffer.c:81-115 | one of the threads can always take a step |
| `RingBuffer.DeadlineValidIff` | src/lib/common/ring_buffer.c:64-76 | the deadline of a timed wait is the right time, and invalid exactly when its nanoseconds come to 10^9 |
| `RingBuffer.Ring.PWait` | src/lib/common/ring_buffer.c:81-91 | a wait is the two producer steps; the result is the timeout code exactly if nothing was free or the index equals it |
| `RingBuffer.Ring.CWait` | src/lib/common/ring_buffer.c:99-109 | the same for the consumer |
| `RingBuffer.Ring.PPost` | src/lib/common/ring_buffer.c:93-97 | posting hands one more slot to the consumer and changes nothing else |
| `RingBuffer.Ring.CPost` | src/lib/common/ring_buffer.c:111-115 | the same towards the producer |
| `JsonLex.ParseString` | src/lib/json_controller/tiny-json.c:126-150 | in-place unescaping yields exactly the pure unescape, and leaves every byte before the string and from the returned position on unchanged |
| `JsonLex.ScanOfUnits` | src/lib/json_controller/tiny-json.c:126-150 | every rendering of characters and escapes (section 7 of RFC 8259, hexadecimal escapes as a question mark) is read back as what it means |
| `JsonLex.UnitsOfScan` | src/lib/json_controller/tiny-json.c:126-150 | and everything that is read is such a rendering |
| `JsonLex.SkipBlank` | src/lib/json_controller/tiny-json.c:417-433 | the first byte that is not blank, if any comes before the NUL |
| `JsonDoc.TextIsRead` | src/lib/json_controller/tiny-json.c:69-381 | every written document (literal bytes, any blanks, any mixture of blanks and commas between items, a delimiter after numbers and literals) is read as its tree: Integer for numbers without fraction and exponent, Real for others, Boolean, Null, Text, Obj, Array, with names and texts where they stand |
| `JsonDoc.TextShapeOf` | src/lib/json_controller/tiny-json.c:69-381 | and every text that is read is such a document after blanks and before anything |
| `JsonDoc.DocShows` | src/lib/json_controller/tiny-json.c:309-381 | the preorder layout of a tree shows the document to somebody who follows child and sibling links |
| `JsonDoc.SizeIsNodes` | src/lib/json_controller/tiny-json.c:348-356 | one node for every value |
| `JsonDoc.UnitSame` | src/lib/json_controller/tiny-json.c:94-150 | the scanner's characters and escapes are those of the written document, control characters b, f, n, r and t included |
| `JsonDoc.NumberSame` | src/lib/json_controller/tiny-json.c:230-304 | the numbers the parser accepts are those of section 6 of RFC 8259, integers only within int64 |
| `JsonNumber.NumValue` | src/lib/json_controller/tiny-json.c:266-304 | accepts exactly the delimited numbers in range, tags integers, terminates the text in place |
| `JsonNumber.NumberComplete` | src/lib/json_controller/tiny-json.c:266-304 | every number of section 6 of RFC 8259 with a delimiter is accepted, integers only within int64 |
| `JsonNumber.NumberSound` | src/lib/json_controller/tiny-json.c:266-304 | and nothing else is |
| `JsonNumber.LexIsNumeric` | src/lib/json_controller/tiny-json.c:288-299 | strcmp on digit strings of one length is numeric order |
| `JsonNumber.TextFitsIff` | src/lib/json_controller/tiny-json.c:286-300 | the length test and string comparison decide exactly whether the integer fits int64 |
| `JsonPool.LinkNext` | src/lib/json_controller/tiny-json.c:309-318 | linking a child behind the last turns the pool layout with the old children into that with one more open |
| `JsonPool.PopLayout` | src/lib/json_controller/tiny-json.c:338-345 | clearing the sibling link of a closed container makes it a finished child of its parent |
| `JsonPool.SiblingAt` | src/lib/json_controller/tiny-json.c:309-318 | children follow one another by sibling links, the last ends the chain, each starts its own subtree |
| `JsonPool.LayoutForward` | src/lib/json_controller/tiny-json.c:309-318 | all links of a finished tree lead forward, so chains are acyclic, and child and last child lie in the tree |
| `JsonTree.ResumeClose` | src/lib/json_controller/tiny-json.c:338-347 | closing a container with an explicit stack is what the recursive reader does |
| `JsonTree.ResumeOpen` | src/lib/json_controller/tiny-json.c:357-370 | opening one, too |
| `JsonTree.ResumeRoom` | src/lib/json_controller/tiny-json.c:348-349 | where another item starts, the finished tree has more nodes than are in use |
| `TinyJson.ObjValue` | src/lib/json_controller/tiny-json.c:326-381 | the iterative parser succeeds exactly if the recursive reader does and the tree fits the pool; the pool then is the layout of that tree, its strings are in the buffer, the rest of the text is unchanged (JsonCreate says the same without a reader) |
| `TinyJson.JsonCreate` | src/lib/json_controller/tiny-json.c:69-89 | whenever the text is blanks, a written document and anything else: if the document has no more nodes than there are, exactly those are used and show it (kind, name, text and children of every value, in order), and what follows the document is unchanged, otherwise the call fails; and it succeeds for no other text |
| `TinyJson.NewProperty` | src/lib/json_controller/tiny-json.c:348-356 | allocating, naming and linking the node of an item |
| `TinyJson.ReadValue` | src/lib/json_controller/tiny-json.c:357-379 | an item becomes the open container or a finished child |
| `TinyJson.RunClose` | src/lib/json_controller/tiny-json.c:338-347 | a closing bracket keeps the loop invariant |
| `TinyJson.PropertyName` | src/lib/json_controller/tiny-json.c:157-165 | the name is unescaped in place and a colon must follow |
| `TinyJson.LeafValue` | src/lib/json_controller/tiny-json.c:371-378 | the values without structure, as the reader has them; TextIsRead ties both to the documents |
| `TinyJson.Pool.Alloc` | src/lib/json_controller/tiny-json.c:396-400 | the pool hands out its nodes in order and no more than it has |
| `Si2c.UpdateLutIdx` | src/lib/ipblks/si2c.c:46-82 | the loops compute the access as specified: first match, or first lowest rank |
| `Si2c.GetLut` | src/lib/ipblks/si2c.c:34-44 | the loop packs the four entries below bit 31 |
| `Si2c.LutReads` | src/lib/ipblks/si2c.c:34-44 | every byte of the word reads as its slot, except that the last slot always reads as bus 1 |
| `Si2c.UpdateHolds` | src/lib/ipblks/si2c.c:52-81 | the returned slot holds the device asked for, the others keep theirs |
| `Si2c.UpdateReads` | src/lib/ipblks/si2c.c:34-82 | so the word has the address of that device, and its bus unless the bus number is even and not zero and the last slot is ranked below all others |
| `Si2c.UpdateReadsIff` | src/lib/ipblks/si2c.c:34-82 | over all tables that requests can lead to, exactly bus 0 and the odd bus numbers are always read back |
| `Si2c.UpdateReorders` | src/lib/ipblks/si2c.c:52-77 | the ranks refine an ordered list: a hit exchanges with the next visible one, a miss puts an unranked slot in front or leaves the list alone |
| `Si2c.MissTakes` | src/lib/ipblks/si2c.c:65-77 | a miss takes the first unranked visible slot, or the lowest visible one |
| `Si2c.AnyRun` | src/lib/ipblks/si2c.c:46-82 | over all runs from a zeroed table ranks are exactly 1 to k and the last slot is ranked last; if only buses 0 and 1 occur it is on bus 1, and with seven-bit addresses as well no device is in two slots |
| `Filter.FilterData.Process` | src/lib/xdsp/filter.c:440-446 | any number of blocks gives what one pass over silence and the whole stream gives |
| `Filter.FilterData.constructor` | src/lib/xdsp/filter.c:317-422 | a fresh filter has silent history and the right tap table |
| `Filter.PassGrows` | src/lib/xdsp/filter.c:440-446 | a pass over a longer signal is the pass so far and a pass over the new samples with the old end as history |
| `FilterGain.ImpulseResponse` | src/lib/xdsp/filter.c:55-144 | after any number of blocks of a channel that is silent but for one sample: every output is that sample times the tap that lies under it, over 0x8000, rounded down and cut to 16 bits, times the gain 1, 2, 4, 8, 16 or 32 when interpolating, and nothing where no tap lies under it |
| `FilterGain.ConstantResponse` | src/lib/xdsp/filter.c:55-144 | of a constant signal: the value times the sum of the taps over 0x8000, when interpolating the sum of the taps of the phase, with the gain |
| `FilterGain.PhasesAddUp` | src/lib/xdsp/filter.c:382-388 | the phases together have every tap once |
| `FilterGain.OutputCount` | src/lib/xdsp/filter.c:440-446 | one output for each 2^bits frames, or factor outputs for each frame |
| `Filter.PhaseDot` | src/lib/xdsp/filter.c:382-388 | filtering with one phase of the taps is filtering the zero-stuffed signal with all of them |
| `Filter.PolyTaps` | src/lib/xdsp/filter.c:382-388 | the loops store the phases row by row |
| `Filter.ConvDecimate` | src/lib/xdsp/filter.c:55-70 | the decimating kernels (and 99-117) compute the FIR outputs, each shifted by 15 and stored as 16 bits |
| `Filter.ConvInterpolate` | src/lib/xdsp/filter.c:73-97 | the interpolating kernels (and 120-144) compute the FIR of the zero-stuffed signal |
| `Filter.GainKeptIff` | src/lib/xdsp/filter.c:82-86 | the smaller shift makes up for the interpolation factor exactly for powers of two up to 32 |
| `Filter.TapsInsideIff` | src/lib/xdsp/filter.c:382-388 | the tap loops stay inside the array exactly if the factor divides the number of taps |
| `Filter.CopyApartIff` | src/lib/xdsp/filter.c:444-445 | the history copy does not overlap exactly if a block is at least as long as the history |
| `Filter.PaceIff` | src/lib/xdsp/filter.c:63-69 | blocks put out as many samples as one pass exactly if the decimation divides the block |
| `RegParser.UnpackBits` | src/dmonitor/reg_parser.py:14-29 | the loop scatters the bits of a value |
| `RegParser.PackBits` | src/dmonitor/reg_parser.py:31-46 | the loop gathers them |
| `RegParser.BitOfUnpack` | src/dmonitor/reg_parser.py:21-26 | which bits of the result are set |
| `RegParser.BitOfPack` | src/dmonitor/reg_parser.py:38-43 | which bits of the result are set |
| `RegParser.PackOfUnpackIff` | src/dmonitor/reg_parser.py:14-46 | packing undoes unpacking modulo 2^width exactly if no bit is listed twice |
| `RegParser.MakeField` | src/dmonitor/reg_parser.py:55-93 | the mask covers exactly the field, the largest value is 2^width - 1; fails exactly for empty ranges and bits beyond the register |
| `GenH.SetterExpression` | src/hwparser/gen_h.py:102-117 | the emitted setter evaluates to the value in the field's place, for every value |
| `GenH.GetterExpression` | src/hwparser/gen_h.py:119-134 | the emitted getter evaluates to the field's value, for every register |
| `GenH.SetterIsUnpack` | src/hwparser/gen_h.py:106-113 | the setter of a list is unpack_bits shifted to the field |
| `GenH.SetterOfRange` | src/hwparser/gen_h.py:114-115 | the setter of a range is the value cut to the width, shifted |
| `GenH.GetterIsPack` | src/hwparser/gen_h.py:123-132 | the getter is pack_bits of the masked field |
| `GenH.GetAfterSetIff` | src/hwparser/gen_h.py:136-150 | GET after SET is the value modulo 2^width exactly if no bit is listed twice |
| `GenH.VmaxIsLargest` | src/dmonitor/reg_parser.py:70-84 | the largest value of a field is the largest one that GET after SET returns unchanged |
| `GenH.SetKeepsOthers` | src/hwparser/gen_h.py:146-147 | SET changes no bit outside the mask |
| `GenH.SetKeepsOtherField` | src/hwparser/gen_h.py:146-147 | SET of one field does not show in GET of a disjoint one |
| `OptFunc.FindIterateMin` | src/lib/cal/opt_func.c:61-83 | the first minimum on the grid, or -1 and INT_MAX if nothing is below; fails exactly with the failing evaluation |
| `OptFunc.GridFirst` | src/lib/cal/opt_func.c:69-78 | the loop finds the first minimum |
| `OptFunc.FindGoldenMin` | src/lib/cal/opt_func.c:8-58 | if it ends within the fuel, what the golden loop computes; the two dividing points of the range are measured at the other parameter, and if the last step is zero the result is the lowest of all that was measured |
| `OptFunc.GoldenRange` | src/lib/cal/opt_func.c:11-57 | that is a point of the range and its measurement |
| `OptFunc.FindBest2D` | src/lib/cal/opt_func.c:103-171 | turn by turn: a turn first searches x at the current y, then y at the new x, an iterating search measures exactly the grid points inside limits and box and ends at the lowest or stays, a golden one measures at least its two dividing points; the turns end with the count or with a value below the limit; the result is true to its measurement, programmed into both parameters, in the box if every turn keeps it there, and with iterating turns nothing lower was measured |
| `OptFunc.TurnRows` | src/lib/cal/opt_func.c:130-164 | after an iterating turn no point of the row of x at the old y, and none of the row of y at the new x, lies below the result |
| `OptFunc.TurnsSound` | src/lib/cal/opt_func.c:125-164 | over all turns the best point is true to its measurement and never gets worse, and stays in the box if every turn iterates or has limits that straddle zero |
| `OptFunc.RangeInBoxIff` | src/lib/cal/opt_func.c:130-164 | a search of a turn never leaves the box, wherever it starts and whatever it measures, exactly if it iterates or its limits straddle zero |
| `OptFunc.RatioInBoxIff` | src/lib/cal/opt_func.c:11-57 | for a fixed ratio and ordered limits also exactly if the limits lie below zero and the ratio takes the upper one to zero |
| `Lms64c.FillPacket` | src/lib/ipblks/lms64c_proto.c:91-131 | every packet holds its part of the data, mirrored word by word as the command asks, a clear tail, and command, status and peripheral as given; the count is exact |
| `Lms64c.ParsePacket` | src/lib/ipblks/lms64c_proto.c:133-158 | the bytes of the reply, nothing else is written, failure exactly if the packets are too few |
| `Lms64c.ByteInPacket` | src/lib/ipblks/lms64c_proto.c:99-128 | every byte of the data is in its packet at its mirrored place |
| `Lms64c.ParseOfFill` | src/lib/ipblks/lms64c_proto.c:91-158 | parsing after filling mirrors every word, and is the identity without a modifier |
| `Lms64c.Tables` | src/lib/ipblks/lms64c_proto.c:9-88 | the tables by command number; whatever is swapped word by word is counted in words |
| `Lms64c.WordReplyValue` | src/lib/ipblks/lms64c_proto.c:142-149 | the 16-bit values of a word reply are the low halves of the big-endian words |
| `Lms64c.BlocksAddUpIff` | src/lib/ipblks/lms64c_proto.c:91-131 | the block counts of all packets add up to the data exactly if the data are whole blocks and, for the three-byte blocks of command 0x31, fit one packet |
| `Lms64c.RoundTripIff` | src/lib/ipblks/lms64c_proto.c:43-54 | all data of a length come back as they were exactly if there are none, or the command has no modifier and fills whole packets or needs only one |

## Left out

- ReadFlash: the destination must hold the range rounded up to whole words, as the last transfer writes whole words; the first 32-bit wrap of the read address is excluded.
- WriteFlash: the source must hold the size rounded up to whole words for the same reason; the assertion that staged data read back equal is not modelled as able to fail.
- Update: files longer than the 16 MiB buffer, the info and read-back actions, option parsing and printing are not modelled; the flash identification before the first read is left out; the check lets a master image with IPROG pass, which starts over at the golden image (MasterEndsChainIff).
- GoldenGap: the last byte of each of the two writes is neither 0xff nor what flash held before; with such a byte the write is complete earlier and the interval shorter; the same holds for GoldenUploadGap.
- EncodeInto: inputs of fewer than two bytes are excluded, the unsigned subtraction in the loop bound wraps for them.
- Serve: nothing is promised of a call that carries a sector into the header page of the master image (CallKeepsIff: such calls damage it, golden ones from MASTER - 128 to MASTER + 255 included), nor of the calls after such a master call up to the next erase call; a golden session may also program other parts of the master image; the header of a session that was validated before the first call is not traced back.
- UploadMaster: sectors that are skipped or repeated are covered by Serve and not by the final-image claim; the same holds for UploadGolden.
- ReadSector: an offset that wraps the 32-bit address space is excluded.
- ReadStream: a read must not fill the ring above its size, the exact bound of ReadTooLarge; 64-bit wrap-around of the ring positions, time stamps, the debug file and the wait for activation are left out; a received packet is always full.
- AnyInterleaving: a client posts only slots it holds, so clients that post after a timeout are excluded; restarts of interrupted waits and the clock are left out.
- JsonCreate: at least one node must be given, the source writes the first one unconditionally; the last-child word of an empty container, which the source leaves undefined, is stored as NIL.
- ScanOfUnits: control characters other than NUL are let through, as in the source and unlike RFC 8259.
- Process: accumulators are unbounded integers, so 32-bit overflow of a sum of products is not modelled.
- ConvDecimate: the scalar kernels are compiled out in the source and serve as the meaning of the convolution; vector kernels, their tap shuffling and the cache-line padding are not part of this model.
- ConvInterpolate: as ConvDecimate.
- SetterExpression: the text of an expression is a tree here, so parentheses and names are left out; values are unbounded, a field that does not fit the C type of the macro argument is not modelled; the same holds for GetterExpression.
- MakeField: splitting the text of an entry and negative bit numbers are left out.
- FindGoldenMin: its loop runs for at most a given number of turns, as its termination is not proved; the floating-point product is any integer between zero and its argument; a search whose last step is not zero may return the worse of its last two points.
- FindIterateMin: the step is not negative (a negative one never ends the loop) and the position does not overflow.
- FindBest2D: all turns measure the same function; the calls whose result the source ignores succeed; sums of coordinates do not overflow.
- FillPacket: commands that swap words take whole words, as the loops read beyond the data otherwise.
- ParsePacket: the word form is limited to 28 bytes, the source reads beyond the packet for more.
- Erase and program commands are atomic: a sector that is half erased by a power failure is not modelled, and the busy bit and its polling are one operation that finds the chip ready or fails.
- The packing of controller command words, register addresses and byte order of flash header words (they are taken after conversion to host order) are left out.
- SIMD code, tables, USB transfers, device discovery, logging and the graphical tools are left out: they carry no properties of this kind or are hardware access.
