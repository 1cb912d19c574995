# IOIO firmware: a verified model

The IOIO board connects a phone or a computer to electronics. Its firmware is C for a
16-bit microcontroller without memory protection; its parts talk to each other through
ring buffers that interrupt handlers and a main loop share, and to the outside through
hand-written incremental parsers. This project models those parts in Dafny and proves what
they are for: that a power cut during an upgrade never leaves a fingerprint without its
image, when parsers do not depend on how their input is cut into buffers, that peripherals
answer every request exactly once in order under every interleaving, and that paging,
multiplexing and recombination lose and repeat nothing.

## How it is organised

Each part has two modules. One holds the state as a value, the steps as functions and the
theorems about whole runs; the other holds the C code's state as a class, with a method
for each piece of code, proved to do exactly the step that the theorems are about.

| part | theorems | code |
|---|---|---|
| ring buffer | QueueInterleaving | ByteQueue |
| I2C, SPI, UART | I2c, I2cProgress, Spi, SpiProgress, Uart, Credit | I2cModule, SpiModule, UartModule |
| HEX translator, image loader, flash | Hex, HexPrint, IoioFile, EndToEnd, Flash | Hex, IoioFile, Flash (classes in the same files) |
| bootloader upgrade | ConfigPage, Bootloader, BootSession | BootloaderMain |
| USB bootloader | BootFeatures, BootProtocol | BootFeatures, BootProtocolState |
| packages file and authentication | Xml, XmlPrint, XmlMarkup, XmlAccepted, Auth, AuthPath, AuthStop | AuthState |
| application protocol, incoming | AppProtocol, AppMessages | AppProtocolState |
| application protocol, outgoing | Outgoing | OutgoingState |
| sequencer settings and cues | Sequencer, SequencerHost | SequencerState |
| service discovery server | Sdp, SdpSearch, SdpClient, SdpAnswer | SdpServer |
| Android debug bridge files and channels | AdbFile, AdbChannels, AdbHistory | AdbFileState, AdbState |
| Bluetooth ACL recombination | Acl | AclState |

What a step must do is also stated apart from the steps: by what the other side writes (HEX
records, markup, messages and settings with fields, file records), by how a session or a visit
ends, by the record of what was said, or by what reaches the host within a bounded number of
steps.

Interrupts, acknowledge bits, arriving bytes, connection status, power cuts and the answers
of the host are events of a run; a run theorem holds for every sequence of them. A flash
that starts to fail keeps failing, and power can be cut between any two flash operations.

## Where the code does not do what one would expect

- Two blocks of an image may have the same address. The later one then cannot set bits that
  the earlier one has cleared: `RepeatedAddress` is such an image, and `WordReadsBack` and
  `BlockReadsBack` say exactly when a block is in flash as it was sent. Images that the HEX
  translator makes never do that, see `HexToFlash`.
- A step pulse with `0 < pw <= period / 2` has the wanted timing; `StepsTiming` shows that the
  exact condition is `pw <= period - period / 2`.
- Reading from a ten-bit I2C address without writing first leaves out the second address byte:
  `TenBitReads` says exactly for which requests it goes out.
- An I2C request that neither writes nor reads ends only if its address is refused; otherwise
  it reads on and on. Every other request ends within a bounded number of interrupts:
  `RequestsEnd`, `EmptyRequestEnds`.
- The SPI decoder and the size it demands differ for one combination of flags and size:
  `SpiUsesTheMessage`. Packets shorter than their data or than what is to be trimmed:
  `EndsAtHeader`, `SizeIsRight`, `SpiCallWellSized`.
- Bytes behind a SOFT_CLOSE are handled in the same buffer and refused in the next, so buffers
  do not matter exactly when nothing follows a close: `BuffersDoNotMatter`, `CloseInTheMiddle`.
  Data behind the end of a file are an error in the same buffer and ignored in the next:
  `AdbFile.CutsDoNotMatter`, `DataBehindTheEnd`.
- The packages file is closed at the first verdict, so an XML error behind the key counts when
  it comes in the same buffer and not when it comes later. `CutsAgreeExactly` says for which
  files the buffers matter, and `ErrorBehindTheFile` is one.
- The XML parser takes more than XML: a processing instruction without white space behind its
  name may end in an angle bracket alone, a closing tag may be without a name, attributes need no
  white space between them, and names may hold almost anything. `AcceptedExactly` says what is
  accepted, and `XmlMarkup` writes it down.
- A pin number equal to the number of pins passes the check of the settings and is looked up
  behind the end of the pin table: `PinsAccepted`.
- A service discovery client needs a limit of three, six or seven bytes, depending on the first
  record that matches (`LimitNeeded`): with less, pages are too long, the same page comes for
  ever, or a header comes twice. The announced length is wrong above 65535 bytes
  (`AnnouncedLength`), and a client that asks for no handles gets one (`ZeroMaximum`).
- The first fragment of an L2CAP packet may be shorter than the length field that is read from
  it: `FragmentsRecombine` says exactly when the packet still gets through, `ShortFirstFragment`
  is one that does not.
- The tuning byte of the oscillator is lost exactly when the power fails between the erase and
  the write-back: `TunLost`.

## Model

| member | source | states |
|---|---|---|
| Bootloader.CrashSafety | firmware/bootloader/main.c:135-387 | In every state of every run of main-loop turns, file callbacks, resets and failing flash operations, cut off between any two of them: a fingerprint that validates is that of the last completed download, and every word of that download's image is in flash. |
| Bootloader.UpgradeSucceeds | firmware/bootloader/main.c:291-387 | A session with a new fingerprint and a valid image, in any buffers, on a flash that holds out, ends with the application running and both installed, whatever was in flash before. |
| Bootloader.NothingToDo | firmware/bootloader/main.c:167-194 | With a fingerprint that already validates the application runs and the flash is not touched. |
| Bootloader.HeldBlockReadsBack | firmware/bootloader/main.c:196-209 | Where an installed image has one block for an address, that block's row is in flash word by word. |
| BootSession.VisitEnds | firmware/bootloader/main.c:211-387 | Every visit, whatever the phone offers and however long the flash holds out, ends as the offer says: in an error exactly when a new fingerprint comes from an authentic manager and the image or the flash fails, otherwise with the application running. Without an offer, or from a manager that is not authentic, nothing is written; success leaves the fingerprint and its image; an error leaves the flash as it was or no fingerprint that validates. |
| BootSession.NextVisit | firmware/bootloader/main.c:291-387 | After a lost connection in any state the next visit is like any other. |
| BootSession.NothingWithoutAuthentication | firmware/bootloader/main.c:211-228 | From every state without trust, every run in which no packages file is found authentic leaves the flash and the list of its operations as they were, across resets and lost connections. |
| BootloaderMain.Main.MainTurn | firmware/bootloader/main.c:303-384 | One turn of the loop is one `Iterate` step of the runs in `CrashSafety`, on the class's flash, loader and fingerprint. |
| BootloaderMain.Main.FileRecvImage | firmware/bootloader/main.c:196-209 | The callback is the image step of those runs, for a chunk and for the end of the file. |
| BootloaderMain.Main.FileRecvFingerprint | firmware/bootloader/main.c:167-194 | The callback is the fingerprint step: at most 16 bytes are kept, and a longer file makes the fingerprint invalid. |
| ConfigPage.WriteFingerprintEffect | firmware/bootloader/main.c:153-165 | However far writing a fingerprint gets, exactly its first words are there and the others still erased; it succeeds exactly when all eight are. |
| ConfigPage.OneFingerprint | firmware/bootloader/main.c:135-147 | A flash validates against at most one fingerprint. |
| EndToEnd.HexToFlash | tools/hex2ioio/hex2ioio.cc:114-174 | A translated HEX file in any buffers is accepted exactly when its data lie in the application range and the flash holds out; then each word of a touched page is the last-written bytes at twice its address, ones where there are none, every other word is unchanged, and each touched page is erased once, before it is written. |
| Hex.Translator.Translate | tools/hex2ioio/hex2ioio.cc:114-174 | The translator fails exactly on files without a meaning, and writes the image that stands for the file's memory; the meaning is defined record by record, without cursor, running checksum or block map. |
| Hex.Translator.ProcessLine | tools/hex2ioio/hex2ioio.cc:124-161 | One line changes the block map, the upper address and the end flag as the record means, with the checksum back at zero, or is refused exactly when it has no meaning. |
| Hex.Translator.WriteImage | tools/hex2ioio/hex2ioio.cc:163-174 | The blocks come out in ascending order behind the header, whatever order they were filled in. |
| HexPrint.LineMeans | tools/hex2ioio/hex2ioio.cc:94-161 | A record written with a colon, digits in either case and the checksum that makes its bytes sum to zero means exactly its data at its address, with wrap-around and refusal where a fourth byte is not zero, its upper address, or the end. |
| HexPrint.OnlyRecords | tools/hex2ioio/hex2ioio.cc:94-161 | A line with a colon that has a meaning is such a record: no other character stands for a digit, and no other sum is accepted. |
| HexPrint.BytesSpelled | tools/hex2ioio/hex2ioio.cc:94-112 | The bytes of a line are the ones given by the positions of its characters in "0123456789ABCDEF" or "0123456789abcdef". |
| HexPrint.HexFileMeans | tools/hex2ioio/hex2ioio.cc:114-161 | A file of records and other lines means the memory that its records write one after the other, up to the end record. |
| IoioFile.SplitDoesNotMatter | firmware/bootloader_common/ioio_file.c:100-115 | The loader's result, flash included, is the same for every way of cutting the stream. |
| IoioFile.ImageAccepted | firmware/bootloader_common/ioio_file.c:51-121 | A transfer ends well exactly when the stream is an image and the flash holds out; then the flash is what the image means, by the image's operations. |
| IoioFile.WordReadsBack | firmware/bootloader_common/ioio_file.c:51-91 | A word of a block is in flash as sent if and only if no block for the same address clears a bit that it sets. |
| IoioFile.BlockReadsBack | firmware/bootloader_common/ioio_file.c:51-91 | The same for whole blocks. |
| IoioFile.RepeatedAddress | firmware/bootloader_common/ioio_file.c:51-91 | An acceptable image of two blocks for one address whose second block is not in flash afterwards. |
| IoioFile.ErasesOnce | firmware/bootloader_common/ioio_file.c:62-81 | Each page that an image touches is erased exactly once, any other never. |
| IoioFile.ErasesBeforePrograms | firmware/bootloader_common/ioio_file.c:62-81 | No page is programmed before it is erased. |
| IoioFile.FeedConfined | firmware/bootloader_common/ioio_file.c:51-91 | Whatever bytes come, valid image or not, no word outside the application range changes. |
| IoioFile.RefusalRepeats | firmware/bootloader_common/ioio_file.h:45-48 | A refused field is refused again without effect until the loader is initialised. |
| IoioFile.ImageFile.IOIOFileHandleBuffer | firmware/bootloader_common/ioio_file.c:100-115 | The loop over a buffer does what the byte-wise parser does on it. |
| Flash.FlashDevice.FlashWriteBlock | firmware/bootloader_common/flash.c:68-91 | A 192-byte row is programmed as 64 words at its address, by one operation; the 16-bit address step inside a row never wraps. |
| BootFeatures.EraseEffect | firmware/device_bootloader/boot_features.c:75-85 | Erasing makes the fingerprint read as ones, keeps the tuning byte and all words below the config page, and succeeds exactly when nothing had to be erased or two flash operations work. |
| BootFeatures.WriteEffect | firmware/device_bootloader/boot_features.c:91-106 | A written fingerprint reads back, all ones included, over anything that was there, and the tuning byte stays. |
| BootFeatures.TunLost | firmware/device_bootloader/boot_features.c:75-85 | The tuning byte changes exactly when the flash fails between the erase and its write-back. |
| BootProtocol.SessionRefines | firmware/device_bootloader/boot_protocol.c:151-266 | A session of well-formed messages in any buffers gives the replies and the flash of a board with a plain fingerprint register that an image sets to all ones; an image is answered with its byte sum modulo 65536; the tuning byte never changes. |
| BootProtocol.BadImageRefused | firmware/device_bootloader/boot_protocol.c:222-256 | A file that is not an image is refused, at the latest with its last byte. |
| BootProtocol.ReceiveSplit | firmware/device_bootloader/boot_protocol.c:197-266 | A buffer does the same as its two parts one after the other, wherever it is cut. |
| BootProtocolState.Receiver.BootProtocolProcess | firmware/device_bootloader/boot_protocol.c:197-266 | The loop that takes parts of a buffer does what the byte-wise protocol does on it. |
| QueueInterleaving.InterleavedQueue | firmware/common/byte_queue.c:41-143 | With the producer interrupting between any two micro-steps of the consumer, pushes are all or nothing, what is taken is the beginning of what was pushed, `size` counts exactly the bytes that come next, and slices in use stay intact. |
| QueueInterleaving.ConsumerTakes | firmware/common/byte_queue.c:95-143 | Whatever is pushed between its micro-steps, a peek with its pull takes exactly the oldest bytes, as many as there were up to the maximum, a single pull takes one, and then everything taken or counted in `size` is everything pushed. |
| ByteQueue.Queue.ByteQueuePushBuffer | firmware/common/byte_queue.c:74-93 | The bytes are appended to the contents, or the contents are unchanged when they do not fit. |
| ByteQueue.Queue.ByteQueuePeekMax | firmware/common/byte_queue.c:121-134 | The two slices together are the oldest bytes, as many as there are up to the maximum. |
| ByteQueue.Queue.ByteQueuePull | firmware/common/byte_queue.c:136-143 | Exactly the oldest bytes are removed, across the wrap-around too. |
| I2c.I2cRuns | firmware/app_layer_v1/i2c.c:163-325 | In every run with room for the results: every finished request has exactly one outcome, in order, that fits the request and what happened on the bus; the host gets exactly those; the counter of waiting results is right; the transmit queue is at a header whenever the state is start; interrupts are bounded by the requests; and the credit is conserved, also through the error path. |
| I2c.RunsAreSafe | firmware/app_layer_v1/i2c.c:177-325 | In every run the assertions of all queue operations hold at the next step, whichever it is. |
| I2c.RoomForResult | firmware/app_layer_v1/i2c.c:224-325 | No result byte is dropped while what waits leaves room for the current result. |
| I2c.RequestsEnd | firmware/app_layer_v1/i2c.c:224-325 | A request ends within its bound of interrupts under every pattern of acknowledge bits and received bytes if and only if it writes or reads something. |
| I2c.EmptyRequestEnds | firmware/app_layer_v1/i2c.c:224-325 | A request that does neither ends, as a failure, exactly when its read address, in the third interrupt, is refused; otherwise no number of interrupts ends it. |
| I2c.TenBitReads | firmware/app_layer_v1/i2c.c:224-292 | On the bus transcript of every request that ended well (one that fits its outcome, as `I2cRuns` proves of all of them) the second address byte follows the first exactly when the address is not a ten-bit one or there was something to write. |
| I2c.TenBitReadExample | firmware/app_layer_v1/i2c.c:224-292 | Three acknowledged interrupts into reading from ten-bit address 0x0F0 the handler is receiving, and only the first address byte has gone out. |
| I2cProgress.ResultsReachHost | firmware/app_layer_v1/i2c.c:177-222 | From every state of every run, undisturbed steps of the main loop pass every waiting result on to the host, each in at most four steps, and leave none behind. |
| I2cProgress.HostIsServed | firmware/app_layer_v1/i2c.c:163-222 | Once everything is transmitted, the host has all results and at least half of the buffer to spend. |
| I2cProgress.ReportsAreLarge | firmware/app_layer_v1/i2c.c:163-204 | In every run the host is only told of more than half of the transmit buffer at a time. |
| I2cModule.Module.MI2CInterrupt | firmware/app_layer_v1/i2c.c:224-325 | The handler on the two ring buffers is the interrupt step of the runs. |
| I2cModule.Module.I2CTasksStep | firmware/app_layer_v1/i2c.c:163-222 | Each piece of the main loop between two points of interruption is the task step of the runs. |
| Spi.SpiRuns | firmware/app_layer_v1/spi.c:166-305 | In every run of well-sized requests with room for what comes in, under every arrival schedule: each packet shifts out its data and then 0xFF up to its size; reports hold exactly the bytes after the trimmed ones, in order; at most eight bytes are in flight and at least one during a packet; the credit is conserved. |
| Spi.RunsAreSafe | firmware/app_layer_v1/spi.c:180-305 | In every run the assertions of all queue operations hold at the next step. |
| Spi.EndsAtHeader | firmware/app_layer_v1/spi.c:208-305 | A packet leaves the queue at the next header exactly when it is long enough for its data. |
| Spi.SizeIsRight | firmware/app_layer_v1/spi.c:208-240 | The size put before a report is the number of its bytes exactly when no more is trimmed than comes in. |
| SpiProgress.ResultsReachHost | firmware/app_layer_v1/spi.c:180-206 | From every state of every run, undisturbed steps of the main loop pass every complete report on, each in at most five steps. |
| SpiProgress.HostIsServed | firmware/app_layer_v1/spi.c:166-206 | Once everything is transmitted, the host has all reports and at least half of the buffer to spend. |
| SpiProgress.ReportsAreLarge | firmware/app_layer_v1/spi.c:166-206 | In every run the host is only told of more than half of the transmit buffer at a time. |
| SpiProgress.PacketsEnd | firmware/app_layer_v1/spi.c:208-305 | In every run the interrupts that start a packet or find received bytes are bounded by the sizes of the packets. |
| SpiModule.Module.SPIInterrupt | firmware/app_layer_v1/spi.c:208-289 | The handler on the two ring buffers is the interrupt step of the runs. |
| SpiModule.Module.SPITasksStep | firmware/app_layer_v1/spi.c:166-206 | Each piece of the main loop is the task step of the runs. |
| Uart.UartRuns | firmware/app_layer_v1/uart.c:121-198 | In every run a host that spends only its credit never overflows the transmit queue, and its bytes go out in order with none lost; credit, transit, queue and unreported bytes are always 256 together; what is received goes to the host in messages of 1 to 64 bytes in order, and a good byte is missing only after the receive queue was full, which takes more than 256 of them. |
| Uart.RoomForArrivals | firmware/app_layer_v1/uart.c:173-188 | An interrupt drops a byte exactly when the good bytes do not fit what is free. |
| Uart.HostGetsCredit | firmware/app_layer_v1/uart.c:121-156 | Once everything is sent, one pass of the main loop leaves the host at least half of the buffer to spend. |
| Uart.BytesReachHost | firmware/app_layer_v1/uart.c:135-156 | From every state of every run, undisturbed steps of the main loop pass everything received on to the host. |
| Uart.ReportsAreLarge | firmware/app_layer_v1/uart.c:121-156 | In every run the host is only told of more than half of the transmit buffer at a time. |
| UartModule.Module.TXInterrupt | firmware/app_layer_v1/uart.c:158-171 | The loop that fills the transmitter is the transmit step of the runs. |
| UartModule.Module.UARTTasksStep | firmware/app_layer_v1/uart.c:135-156 | Each piece of the main loop is the task step of the runs. |
| AppProtocol.BuffersDoNotMatter | firmware/app_layer_v1/protocol.c:578-625 | For every parser state and stream: all ways of cutting it into non-empty buffers handle the same messages and end in the same state if and only if no proper beginning of the stream closes the channel. |
| AppProtocol.CloseInTheMiddle | firmware/app_layer_v1/protocol.c:578-586 | Wherever a close is accepted before the end of a stream, a cut right behind it gives another result than one buffer. |
| AppProtocol.MessagesParsed | firmware/app_layer_v1/protocol.c:175-207 | A stream made of frames, each sized by the configuration that the messages before it left, is parsed into exactly those messages. |
| AppMessages.CommandsParsed | firmware/app_layer_v1/protocol.c:175-207 | Any list of messages built from their fields, with their data and its length (all types of the table: UART data, SPI requests with every choice of sizes, I2C transfers, sequencer settings, cues and commands, and the fixed ones by the widths of their fields), is parsed into exactly these messages, and each has the effect that its fields ask for. |
| AppMessages.SettingsInEffect | firmware/app_layer_v1/protocol.c:539-546 | Settings that have been accepted are in effect until a reset, a close or other settings, whatever else comes: the channels are theirs, and so is the length of cues. |
| AppMessages.I2cDecoded | firmware/app_layer_v1/protocol.c:442-464 | The transfer that is started has the device, data and sizes of the message, and its address as it goes on the bus: seven bits shifted, or 11110 with the two high bits in front of the low byte; seven-bit addresses that announce ten bits, and bits that do not belong to them, are refused. |
| AppMessages.SpiDecoded | firmware/app_layer_v1/protocol.c:386-409 | The transfer that is started has the fields of the message, whichever sizes are given. |
| AppProtocol.SpiUsesTheMessage | firmware/app_layer_v1/protocol.c:386-409 | The SPI decoder stops reading where the message ends, for all but one combination of flags and size. |
| AppProtocol.SpiCallWellSized | firmware/app_layer_v1/protocol.c:386-409 | The decoded request meets the precondition of `SpiRuns` exactly when neither size exceeds the total, and then the reported bytes are as many as asked. |
| AppProtocol.CueFitsMessage | firmware/app_layer_v1/protocol.c:175-207 | A cue message is as long as the cue decoder takes it to be, whatever has been configured. |
| AppProtocolState.Receiver.AppProtocolHandleIncoming | firmware/app_layer_v1/protocol.c:578-625 | The loop with the receive buffer does what the byte-wise parser does. |
| Sequencer.ConfigureSizes | firmware/app_layer_v1/sequencer.c:199-313 | The expected cue size is always what the configured channels take; success means that the settings were used to the last byte. |
| Sequencer.PinsAccepted | firmware/app_layer_v1/sequencer.c:267-282 | A pin is accepted up to and including the number of pins, and that one is the only accepted pin outside the table. |
| Sequencer.ConfigureValid | firmware/app_layer_v1/sequencer.c:199-313 | With pins in the table every configured channel drives an output that exists. |
| Sequencer.ChannelsAreIndependent | firmware/app_layer_v1/sequencer.c:315-383 | For distinct outputs, each channel's part of a cue follows from its own bytes alone. |
| Sequencer.OthersUnchanged | firmware/app_layer_v1/sequencer.c:315-383 | What no channel drives is left alone. |
| Sequencer.StepsTiming | firmware/app_layer_v1/sequencer.c:347-363 | A step pulse is `pw` wide and ends within its period exactly when it fits the second half of it. |
| SequencerHost.SettingsConfigure | firmware/app_layer_v1/sequencer.c:199-313 | Settings sent as structures, with anything in their unused bits, become the channels with their periods, pulse widths, clocks, pins and cue lengths, up to the first that is not acceptable and 32 at most; the configuration succeeds exactly when all are taken. |
| SequencerHost.CutSetting | firmware/app_layer_v1/sequencer.c:199-289 | Settings that are cut short are refused. |
| SequencerHost.CueSetsOutputs | firmware/app_layer_v1/sequencer.c:315-383 | For settings that drive different outputs, a cue sets each output compare to the registers, and each pin to the level, that the fields of its setting and of its part of the cue ask for. |
| SequencerState.State.ConfigureChannels | firmware/app_layer_v1/sequencer.c:291-313 | The loop over the settings computes the specified configuration, also when it fails on the way. |
| SequencerState.State.DecodeCue | firmware/app_layer_v1/sequencer.c:315-383 | The loop over the channels computes the specified cue. |
| Outgoing.StreamRuns | firmware/app_layer_v1/protocol.c:233-284 | In every run the packets put together are a prefix of the messages, none is longer than allowed, bytes that the connection still reads are untouched, and the channel closes at most once, when everything has been sent and released. |
| Outgoing.CloseEnds | firmware/app_layer_v1/protocol.c:259-284 | A closing channel is closed after as many turns as there are unsent bytes, and two more. |
| Outgoing.EverythingGoesOut | firmware/app_layer_v1/protocol.c:233-284 | From every point of every run in which the queue has not overflowed, the packets put together are all the messages after as many turns as there are unsent bytes, and one more. |
| Outgoing.MessageFits | firmware/app_layer_v1/protocol.c:233-257 | A message is taken whole exactly when it fits behind what is waiting, and the queue never holds more than its capacity. |
| Outgoing.OpenUntilClose | firmware/app_layer_v1/protocol.c:233-284 | A channel takes messages up to the first soft close of a run, and stops with nothing else. |
| OutgoingState.Sender.AppProtocolTasks | firmware/app_layer_v1/protocol.c:259-284 | One call is one turn of the runs; the packet is the stretch of the ring that the queue keeps until it is released. |
| OutgoingState.Sender.AppProtocolSendMessageWithVarArgSplit | firmware/app_layer_v1/protocol.c:249-257 | The pieces are pushed behind each other and the stretch being read does not change. |
| Xml.CutsDoNotMatter | firmware/bootloader/xml.c:40-348 | Character by character the events are the same for every way of cutting the input, from any state between buffers. |
| AuthPath.AuthenticationIsRight | firmware/bootloader/auth.c:85-248 | Feeding all of any input to AuthProcess, in any buffers, complete or not: an error gives PARSE_ERROR; otherwise the result is PASS exactly when the first key attribute on packages/package/sigs/cert, in a package already seen with the manager's name, is the trusted key, FAIL when it is another, BUSY while there is none. |
| AuthPath.PathAgreesWithTree | firmware/bootloader/auth.c:85-221 | On whole documents the path-based verdict is the one defined on the tree of elements. |
| XmlPrint.PrintedFileIsJudged | firmware/bootloader/xml.c:79-348 | A printed packages file, self-closing elements included, is parsed back to the same events and judged as its tree deserves, in whatever pieces it comes. |
| XmlPrint.TypicalFile | firmware/bootloader/auth.c:85-248 | Letter by letter: the file about one package passes exactly when the package has the manager's name and its certificate the trusted key, fails with another key, and gives no verdict with another name, in whatever pieces it comes. |
| XmlMarkup.MarkupIsJudged | firmware/bootloader/xml.c:79-348 | Markup with processing instructions, both kinds of quotes and white space wherever it may stand is parsed without an error into exactly its events, and judged as the path of its elements deserves, in whatever pieces it comes. |
| XmlMarkup.PrologIsIgnored | firmware/bootloader/xml.c:111-339 | A declaration or another processing instruction in front does not change the verdict. |
| XmlAccepted.AcceptedExactly | firmware/bootloader/xml.c:79-348 | A text is parsed without an error up to the end of its last piece if and only if it is such markup. |
| AuthState.XmlContext.XMLProcess | firmware/bootloader/xml.c:79-348 | The loop with the bounded buffer and the callbacks does what the parser of the theorems does; the position never leaves the buffer. |
| AuthState.AuthProcessData | firmware/bootloader/auth.c:243-248 | One buffer is one step of the session, and the context is usable for the next, also after an error. |
| AuthState.AuthenticateBuffers | firmware/bootloader/main.c:211-228 | Buffers are fed until the first verdict; the result is the verdict of `AuthenticationIsRight` on what was fed, and on the whole file unless its first error comes behind a key that has decided. |
| AuthStop.CutsAgreeExactly | firmware/bootloader/main.c:211-228 | All ways of cutting a stream get the same result from the program, the verdict on the whole stream, if and only if its first error does not come behind a key attribute that has decided. |
| AuthStop.ErrorBehindTheFile | firmware/bootloader/main.c:211-228 | A trusted file followed by what is not XML passes in two buffers and is unparsable in one. |
| Sdp.PagesMakeTheAnswer | firmware/libbtstack/src/sdp.c:434-559 | Following the continuation states, each page within its limit, gives the one-shot answer: a prefix of it at every moment, all of it at the end, after at most one page more than it has bytes. |
| Sdp.PageIsPart | firmware/libbtstack/src/sdp.c:487-559 | From every reachable continuation one page with the least room or more fits the limit, loses and repeats nothing, and moves strictly forward; four bytes are enough on all pages but the first. |
| Sdp.AnnouncedLength | firmware/libbtstack/src/sdp.c:434-446 | The length in the first page is that of the answer exactly when it fits 16 bits. |
| Sdp.LimitNeeded | firmware/libbtstack/src/sdp.c:487-559 | A client that follows the pages with a limit gets the one-shot answer, in pages within the limit, if and only if the limit is at least three bytes when nothing matches, six when nothing is asked of the first record that matches, and seven otherwise. |
| Sdp.SevenBytesNeeded | firmware/libbtstack/src/sdp.c:487-559 | So it is exactly seven when the first matching record has an attribute that is asked for. |
| SdpAnswer.AnswerRead | firmware/libbtstack/src/sdp.c:434-559 | Read as data elements, by their own lengths, the answer is one sequence for each record that matches, in order, of the identifiers and values of the attributes that were asked for. |
| SdpSearch.PagesMakeTheList | firmware/libbtstack/src/sdp.c:287-362 | The pages are the first matching handles in list order, as many as wanted, none repeated or skipped. |
| SdpSearch.ZeroMaximum | firmware/libbtstack/src/sdp.c:287-362 | With a maximum of zero the page is right exactly when nothing matches. |
| SdpServer.Server.HandleServiceSearchAttributeRequest | firmware/libbtstack/src/sdp.c:448-559 | The bytes written are the response to the page at the request's continuation, within the connection's and the client's limits. |
| SdpServer.Server.HandleServiceSearchRequest | firmware/libbtstack/src/sdp.c:287-362 | The same for the handle list. |
| SdpServer.Server.FilterAttributes | firmware/libbtstack/src/sdp_util.c:361-432 | The filter copies the longest slice of the wanted attributes that fits and says complete exactly when that is all; nothing before it changes. |
| SdpClient.FetchedAnswer | firmware/libbtstack/src/sdp.c:448-559 | A client that knows only the response bytes, and sends back the continuation bytes it got, collects exactly the one-shot answer. |
| SdpClient.FetchedHandles | firmware/libbtstack/src/sdp.c:287-362 | Such a client collects exactly the wanted handles. |
| SdpClient.AttributeHeader | firmware/libbtstack/src/sdp.c:535-559 | Every response to an attribute request has its type, the transaction of the request and the size of what follows, and ends with a continuation state of the length that it tells. |
| SdpClient.SearchHeaded | firmware/libbtstack/src/sdp.c:342-362 | So has every response to a search, with the number of records for the client and the number on the page. |
| AdbFile.FileTransferred | firmware/libadb/adb_file.c:113-202 | For every cutting, the content passed on is the file's, a prefix before the end, and success is reported exactly when all has come and the channel is closed cleanly. |
| AdbFile.CutsDoNotMatter | firmware/libadb/adb_file.c:113-202 | For every file being read and every stream, incomplete and malformed ones included: the content passed on, the final state and the number of closes are the same for all ways of cutting the stream if and only if no proper beginning of it is a whole file. |
| AdbFile.StreamMeans | firmware/libadb/adb_file.c:113-202 | Any stream, read record by record: DATA is passed on, DONE ends the file if nothing is behind it, FAIL and every other type are errors once they are complete, and the channel is closed once, or not yet. |
| AdbFile.DataBehindTheEnd | firmware/libadb/adb_file.c:113-202 | Data behind the end is an error in the same buffer and ignored in the next. |
| AdbFileState.Reader.ADBFileCallback | firmware/libadb/adb_file.c:113-202 | The endless loop with the message buffer ends, and does what the reader of the theorems does. |
| AdbChannels.WritesAreAcknowledged | firmware/libadb/adb.c:146-300 | In every run no second write goes out on a channel before the first is acknowledged. |
| AdbChannels.TurnsAreFair | firmware/libadb/adb.c:146-182 | In every run a channel that keeps having something to send is served within as many turns as there are channels. |
| AdbHistory.RunsConform | firmware/libadb/adb.c:146-300 | Every run is a conversation that the protocol allows: a channel is opened before it is written on, writes go to the identifier that came with the open and wait for the acknowledgement of the one before, what comes in is acknowledged once and before anything else is sent, closes come last, and each channel is in the state that follows from what has been said on it. |
| AdbHistory.PacketsAreHeard | firmware/libadb/adb.c:184-256 | For a channel in use an acknowledgement, a close and a write are taken for what the conversation makes of them. |
| AdbHistory.WritesAreSent | firmware/libadb/adb.c:146-300 | With clients that wait until their channel is ready, what goes out on each channel is what was asked for, in order and once each; nothing is missing while the channel is idle without data or waits for an acknowledgement. |
| AdbState.Channels.ADBChannelTasks | firmware/libadb/adb.c:146-182 | The search for the next channel and what it sends are the turn of the runs. |
| Acl.AclRuns | firmware/libbtstack/src/hci.c:275-364 | Whatever fragments of other connections and malformed packets come between, a connection forwards the packets sent on it, as if uncut, in order, and nothing else. |
| Acl.FragmentsRecombine | firmware/libbtstack/src/hci.c:297-350 | However a packet is cut, it is forwarded once and uncut exactly when the length read behind the first header is the packet's, which it is when the first fragment has two bytes. |
| Acl.ShortFirstFragment | firmware/libbtstack/src/hci.c:323-346 | A first fragment of one byte whose packet never gets through. |
| Acl.ConnectionsAreIndependent | firmware/libbtstack/src/hci.c:275-364 | The state and the output of a connection follow from its own fragments alone. |
| Acl.StrayPacket | firmware/libbtstack/src/hci.c:288-346 | Packets of a wrong size, with other flags, continuations of nothing and beginnings inside another packet make no difference, wherever they come. |
| Acl.FragmentRead | firmware/libbtstack/src/hci.c:275-300 | A packet laid out from a handle, flags, broadcast bits and content is taken for that fragment. |
| Acl.FragmentsFit | firmware/libbtstack/src/hci.c:297-350 | While a packet arrives, no more is stored than the packet with its header, so one that fits the buffer never leaves it. |
| AclState.Stack.AclHandler | firmware/libbtstack/src/hci.c:275-364 | The handler on the list of connections and their buffers is the step of the runs. |

## Left out

- Acl.AclRuns: a packet of a peer that is larger than the recombination buffer is outside the model; that a packet fits is the handler's precondition.
- AdbChannels.WritesAreAcknowledged: channel identifiers do not wrap (it takes 2^24 opens), and a reset or disconnect of the device starts a new run.
- AppProtocol.BuffersDoNotMatter: message types outside the table and variable arguments beyond the receive buffer are excluded, as the source relies on the host for both.
- AppProtocolState.Receiver.AppProtocolHandleIncoming: requires types in the table and messages that fit the buffer; the checks of arguments and the answers of peripherals are a list of verdicts.
- AuthPath.PathAgreesWithTree: trees have no processing instructions; files with them are covered by XmlMarkup.MarkupIsJudged.
- BootProtocolState.Receiver.BootProtocolProcess: the position in a buffer is unbounded; the source's is a 16-bit `int`.
- Hex.Translator.Translate: lines are at most 255 characters (the source's line buffer), and the high digit or byte is read first, an order that C++ leaves open (tools/hex2ioio/hex2ioio.cc:104, 111).
- I2c.EmptyRequestEnds: the count of bytes to read goes below zero without bound; the source's is a 16-bit `int`, which would come back to zero after 65536 bytes if it wraps.
- I2c.I2cRuns: runs in which the receive queue never overflows and requests that write or read something; interrupt flag bits are not modelled, an interrupt may come whenever it is enabled.
- Sequencer.ConfigureValid: the port of a pin behind the table is whatever lies there, so nothing is claimed for it.
- Spi.SpiRuns: runs in which the receive queue never overflows; what ill-sized requests do is stated separately.
- Sdp.PagesMakeTheAnswer: matching and the list of wanted attributes are given for each record; a continuation state that the server has not issued, and a service list that changes between pages, are outside; so are records of 65533 bytes and more, for which the source's sum of size and header wraps (firmware/libbtstack/src/sdp.c:509).
- SdpServer.Server.HandleServiceSearchAttributeRequest: smaller limits than the page needs are not served within bounds, see Sdp.LimitNeeded; the packet size must leave room for the fixed parts.
- Uart.UartRuns: a reconfiguration clears both queues and starts a new run.
- The ServiceAttribute request of the discovery server, registration of services, and the data-element readers of sdp_util.c.
- HCI: connection set-up, the count of free ACL slots, power states, commands and events other than ACL data.
- L2CAP channels, their configuration and credits, and the encoder of signalling commands: not modelled.
- The link-key store, its linked list and memory pool: not modelled.
- The sequencer's event and cue queues with their free-running counters, its timers and the assembly interrupt; idle cues; starting, pausing and stopping.
- Pin functions, PWM, ADC, capture, ICSP and the connection factories: register access or finite tables.
- The dumpsys parser, which finds the manager's path, is an event of a bootloader run; the paths of files are left out.
- Re-entrant closes from callbacks, and references to ADB buffers that clients hold.
- Registers, priorities and atomic adds: an interrupt handler is one step unless the source can be interrupted inside it.
