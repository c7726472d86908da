# Verified models of the CoAP and BLE training programs

A Dafny model of the stateful parts of the training code: the Contiki-NG CoAP resources
(`res-chunks.c`, `res-b1-sep-b2.c`, `res-temperature.c`, `res-separate.c`, `res-mirror.c`), the RIOT
gcoap command line client (`gcoap_cli.c`) and the JSON dump of the BLE scanner (`ble_rss_scan.c`).
`dafny verify dfyconfig.toml` checks the whole project.

Handlers and callbacks are methods over arrays and fields, as in C; each is proved against a function of
the old state, and the properties of whole runs are lemmas about that function. `char` stands for the
characters of formatted text, `byte` for opaque data.

| file | content |
|---|---|
| Text.dfy | decimal and hexadecimal conversions with their readers, C strings, the contract of `snprintf` |
| Blockwise.dfy | block arithmetic of RFC 7959 |
| Chunks.dfy | the chunk-wise resource: pieces of changing sizes, block contents, reassembly |
| GcoapCli.dfy | command lines, retained path, request counter, response callback |
| ChunkTransfer.dfy | the client downloading the chunk resource |
| Echo.dfy, EchoTransfer.dfy, EchoRuns.dfy | the upload-and-echo resource, whole transfers, and runs of requests in any order |
| Temperature.dfy | the observe rate limiter |
| Separate.dfy | the separate-response bookkeeping |
| Mirror.dfy, MirrorReader.dfy | the bounded request printer, and a reader for its text |
| ScanJson.dfy, ScanJsonReader.dfy, ScanJsonUnique.dfy | the JSON dump, a reader for it, and when two dumps are equal |

## Assumed of the libraries

Their sources are not part of this repository, so their part is stated once, as contracts with bodies:

- `snprintf(dst, n, ...)` with n > 0 writes at most n - 1 characters and a NUL, with n == 0 nothing, and
  always returns the untruncated length (`Text.Snprintf`).
- The engine maps block k at size s to offset k * s and sets the more flag when the handler does not
  return -1 (RFC 7959, sections 2.2 and 2.4); it answers a confirmable request in its acknowledgement
  (RFC 7252, section 5.2.1) and a method without a handler with an error.
- `coap_block1_handler` stores a block at its offset and sets the length to its end, refuses an empty
  block or one that does not fit, and returns 0 only for a stored last block (RFC 7959, section 2.5).
- `coap_separate_accept` copies the request's metadata and `coap_separate_resume` restores it.
- `gcoap_req_init` builds a non-confirmable request; `coap_opt_add_block2_control` adds number and size.
- Transaction allocation, address parsing, the bytes sent, sensor readings and the lookups in advertising
  data are parameters.
- `int` is 32 bits with two's-complement wrap-around, and `size_t` has at least 32 bits; legacy advertising
  data (`BLE_ADV_PDU_LEN`) has 31 bytes.

## What does not hold without a condition

- The echo resource copies 32 bytes for every follow-up block, whatever the block size. A block that
  starts behind byte 224 makes the copy read beyond the array, where C promises nothing: such downloads end
  there, whatever the buffers hold (`Overrun`, `EndSignal`); at block size 32 there are none, at 16 they are
  those of more than 240 bytes (`EchoAtSmallSizes`). And a block of more than 32 bytes ends in old contents of
  the response buffer: without an overrun an upload comes back unchanged for all buffers exactly when
  `CopyReaches` holds (`EchoExactly`, `EchoCanChange`).
- When the block size divides the upload, no follow-up block returns -1 and the client's next request is
  refused (`EndSignal`).
- The echo resource trusts Block1 offsets. In every run an answer shows the bytes of the upload begun last
  wherever that covers them, and depends on what the array held before exactly when it shows a position that
  no piece of the upload covers (`NoStaleData`, `AnswerDecides`, `CoverDecides`, `GapShowsEarlierUpload`).
  Delayed, repeated and overtaking pieces do no harm as such: the array ends with the whole upload exactly when
  the pieces cover it and the last one stored ends it (`AnyOrderStoresWhole`, `DelayedPieces`).
- The `abs` test of the temperature resource is wrong for readings exactly 2^31 apart (`ChangedIsExact`),
  so that a change can stay unreported (`AccuracyCanFail`), and is accurate otherwise (`Accuracy`).
- The guards of the mirror printer cover whole hex sections; the size handed to `snprintf` stays
  non-negative exactly when `HexFits` holds (in lengths alone: `HexFitsByLength`), as it does for every text that
  fits. At the path the server
  activates, queries of certain lengths leave no room (`RoomAtDeployedPath`, `NoRoomForToken`).
- The command line client fetches the whole chunk resource exactly with a get whose path has 1 to 31
  characters, or with any get if one block is enough (`TransferCompletes`).
- The JSON dump does not escape names. A JSON reader gets the same nodes back exactly when no name needs
  escaping (`ReadableExactly`, `QuoteIsUnreadable`, `BackslashIsLost`). The text itself is never ambiguous for
  names of up to 31 characters, or without quotes (`PrintingIsInjective`); with quotes in longer names it is
  (`PrintingCollides`).
- The transmit power 127 is shown both for a field with that value and for none (`TxPowerTells`).
- The mirrored text gives the message back exactly when `MirrorReader.Readable` holds (`ReadBackExactly`): a string may
  end its line early, and a payload may begin like an option (`PayloadAsOption`).
- The comment at line 75 of `res-separate.c` speaks of one open separate response; the code admits two
  and keeps the metadata of the later one. The model follows the code.

## Model

| member | source | states |
|---|---|---|
| Chunks.GetHandler | contiki-ng/networking/coap/coap-example-server/resources/res-chunks.c:61-98 | below 2050 the reply is the offset between bars over and over, read back from the payload, cut at the preferred size and at 2050, and the new offset is -1 exactly when 2050 is reached; from there on an error, an unchanged offset and an untouched buffer |
| Chunks.TagReads | contiki-ng/networking/coap/coap-example-server/resources/res-chunks.c:78 | what a tag prints between its bars reads as the offset, whatever follows |
| Chunks.FilledReads | contiki-ng/networking/coap/coap-example-server/resources/res-chunks.c:76-87 | n bytes of tags read as the offset over and over, in as many whole tags as fit, and the start of one more |
| Chunks.Generate | contiki-ng/networking/coap/coap-example-server/resources/res-chunks.c:76-79 | the loop of truncated appends ends with at least the preferred size counted and the tags in the buffer up to it |
| Chunks.RepeatedAt | contiki-ng/networking/coap/coap-example-server/resources/res-chunks.c:77-79 | character i of tags printed in a row is character i mod length of the tag |
| Chunks.WalkLength | contiki-ng/networking/coap/coap-example-server/resources/res-chunks.c:67-92 | the pieces for any sizes together carry as many bytes as asked for, at most up to the total |
| Chunks.ServedFrom | contiki-ng/networking/coap/coap-example-server/resources/res-chunks.c:76-97 | enough tags in a row, cut twice, are exactly the reply of the specification |
| Chunks.Tiling | contiki-ng/networking/coap/coap-example-server/resources/res-chunks.c:67-97 | for every sequence of positive sizes the pieces are contiguous, carry their own bytes, never pass 2050, deliver as much as was asked for, and the last one returns -1 exactly when the sizes reach the total |
| Chunks.BlockByte | contiki-ng/networking/coap/coap-example-server/resources/res-chunks.c:76-92 | byte k * s + i of the transfer is character i mod length of the tag of offset k * s |
| Chunks.BlockReads | contiki-ng/networking/coap/coap-example-server/resources/res-chunks.c:76-92 | block k, read back, is its own offset k * s over and over, in as many whole tags as fit |
| Chunks.BlockIsSlice | contiki-ng/networking/coap/coap-example-server/resources/res-chunks.c:67-92 | block k is the slice of one fixed 2050-byte representation from k * s on |
| Chunks.ReassembledBytes | contiki-ng/networking/coap/coap-example-server/resources/res-chunks.c:62-97 | after any arrivals, in any order and with repeats, exactly the bytes of the arrived blocks are there, with their values in the representation |
| Chunks.AnyArrivalOrder | contiki-ng/networking/coap/coap-example-server/resources/res-chunks.c:62-97 | any arrivals covering every block reassemble to the whole representation |
| GcoapCli.Cli.RespHandler | riot/networking/coap/gcoap_cli.c:47-114 | the follow-on request for a response, given the path in the buffer: none on time-out, error, no more flag or an empty path at block 0; otherwise a GET for the next block, confirmable after an acknowledgement |
| GcoapCli.Cli.Retain | riot/networking/coap/gcoap_cli.c:216-219 | whatever the buffer held, its C string becomes the new path, or empty if that has more than 31 characters |
| GcoapCli.Cli.Send | riot/networking/coap/gcoap_cli.c:161-166 | the 16-bit request count goes up by one, wrapping, exactly when the library sent bytes |
| GcoapCli.Cli.CodePos | riot/networking/coap/gcoap_cli.c:171-196 | the loop finds the method word's place in the table, or -1 |
| GcoapCli.Cli.SendCommand | riot/networking/coap/gcoap_cli.c:213-243 | the path is retained even if the payload does not fit or sending fails; the request carries method, type and path, and with data the text Content-Format and the data |
| GcoapCli.Cli.Cmd | riot/networking/coap/gcoap_cli.c:169-256 | outcome, retained path and counter for every command line, and the request in the words typed: method, confirmable exactly with `-c` behind it, path, payload, and text format exactly with a payload; anything but a complete request command changes nothing |
| GcoapCli.ParsesExactlyWords | riot/networking/coap/gcoap_cli.c:198-213 | a command line is accepted as a command exactly when it is the rendering of that command, `-c` being an address only behind the option |
| GcoapCli.RequestAsTyped | riot/networking/coap/gcoap_cli.c:198-234 | the request of a command line: type by its `-c`, path by its last word or, with a payload, the last but one, payload by its last word, format 0 exactly with a payload, no block |
| GcoapCli.NoRequest | riot/networking/coap/gcoap_cli.c:171-256 | which lines get the help, the information and the usage instead, the usage exactly for a method word whose line renders no command |
| GcoapCli.Continuation | riot/networking/coap/gcoap_cli.c:90-113 | behind any command, follow-on i is a GET of the user's path for block i + 1, confirmable exactly after an acknowledgement, as long as answers go on; paths of 0 or more than 31 characters get none |
| GcoapCli.FollowOnsFrom | riot/networking/coap/gcoap_cli.c:90-113 | the same from any later block on, then also with an empty path |
| ChunkTransfer.CompleteTransfer | riot/networking/coap/gcoap_cli.c:91-113 | the composed run at any block size s asks for blocks 0, 1, 2, ... of the user's path, confirmable exactly as the command asks, ends after ceil(2050 / s) responses, has the more flag and s bytes in all but the last, each payload i reads as the offset i * s over and over, and they join to the whole representation |
| ChunkTransfer.TransferCompletes | riot/networking/coap/gcoap_cli.c:35-39 | a command fetches everything exactly when it is a get whose path is retained or for which one block is enough |
| ChunkTransfer.RunFrom | riot/networking/coap/gcoap_cli.c:91-113 | from any block on, the remaining exchanges are the expected ones and as many as blocks remain |
| ChunkTransfer.ReceivedFrom | contiki-ng/networking/coap/coap-example-server/resources/res-chunks.c:76-97 | payloads of consecutive blocks up to the last join to the rest of the representation |
| Echo.Resource.Block1Handler | contiki-ng/networking/coap/coap-example-server/resources/res-b1-sep-b2.c:61-66 | the assumed Block1 handler over the static array: what is stored, the new length, and 0 exactly for a stored last block |
| Echo.Resource.PostHandler | contiki-ng/networking/coap/coap-example-server/resources/res-b1-sep-b2.c:55-112 | both branches of the handler as functions of array, length, metadata and the old contents of the response buffer; follow-ups change no static variable |
| EchoTransfer.UploadAccepted | contiki-ng/networking/coap/coap-example-server/resources/res-b1-sep-b2.c:59-94 | an upload in pieces of any sizes, over any array, ends in the state and the answer of the same upload made in a single piece |
| EchoTransfer.UploadStored | contiki-ng/networking/coap/coap-example-server/resources/res-b1-sep-b2.c:59-94 | the array then holds exactly the upload and behind it what it held before, with its length and metadata, and the answer is its first block unless no transaction was to be had |
| EchoTransfer.UploadRefused | contiki-ng/networking/coap/coap-example-server/resources/res-b1-sep-b2.c:61-66 | an upload that does not fit or ends in an empty piece gets no separate response |
| EchoTransfer.FetchEnd | contiki-ng/networking/coap/coap-example-server/resources/res-b1-sep-b2.c:97-109 | follow-ups from any block start on: how many bytes and blocks arrive and how the run ends, whatever the buffers hold |
| EchoTransfer.FetchByte | contiki-ng/networking/coap/coap-example-server/resources/res-b1-sep-b2.c:103-110 | each byte that arrives is the array's if the 32-byte copy reaches it and the buffer's otherwise |
| EchoTransfer.EchoExactly | contiki-ng/networking/coap/coap-example-server/resources/res-b1-sep-b2.c:59-110 | with an overrun the echo is broken and short for every buffer; without one it is complete, and unchanged for all buffers if and only if no follow-up block is longer than the copy, the first byte beyond it being the buffer's otherwise |
| EchoTransfer.EchoAtSmallSizes | contiki-ng/networking/coap/coap-example-server/resources/res-b1-sep-b2.c:86-110 | at size 32 every upload comes back for every buffer; at 16 exactly those of up to 240 bytes do, and of the others the first 240 bytes |
| EchoTransfer.EchoCanChange | contiki-ng/networking/coap/coap-example-server/resources/res-b1-sep-b2.c:103-110 | 97 zeros at size 64 come back complete with their last byte taken from the buffer |
| EchoTransfer.EndSignal | contiki-ng/networking/coap/coap-example-server/resources/res-b1-sep-b2.c:86-110 | the echo is broken and short exactly when a follow-up block overruns the array; otherwise ceil(n / s) - 1 follow-ups bring it all, the last returning -1 exactly when s does not divide n, one more request being refused if it does |
| EchoTransfer.EchoedByte | contiki-ng/networking/coap/coap-example-server/resources/res-b1-sep-b2.c:59-110 | each byte of the echo is the upload's, or the response buffer's where the copy does not reach |
| EchoRuns.NoStaleData | contiki-ng/networking/coap/coap-example-server/resources/res-b1-sep-b2.c:51-110 | in every run from any state, of pieces in any order, repeated, abandoned or leaving gaps, and block requests at any time, each answer shows the upload begun last at all positions it covers, its length and refusals follow from that upload's length, and it depends on what the array held before that upload if and only if it shows a position the upload does not cover |
| EchoRuns.StoredExactly | contiki-ng/networking/coap/coap-example-server/resources/res-b1-sep-b2.c:59-66 | after any stored pieces, each covered position holds the byte sent for it last and every other what it held before; the length is the end of the last piece |
| EchoRuns.RunStores | contiki-ng/networking/coap/coap-example-server/resources/res-b1-sep-b2.c:59-109 | after any run, array and length are what its stored pieces alone leave; refused pieces and block requests change neither |
| EchoRuns.AnswerDecides | contiki-ng/networking/coap/coap-example-server/resources/res-b1-sep-b2.c:59-110 | any first or follow-up answer, of any block size, is the same for every array the upload may have found if and only if the upload covers every position the answer shows |
| EchoRuns.CoverDecides | contiki-ng/networking/coap/coap-example-server/resources/res-b1-sep-b2.c:59-66 | the bytes in use are independent of what the array held before the pieces if and only if the pieces cover all of them |
| EchoRuns.AnyOrderStoresWhole | contiki-ng/networking/coap/coap-example-server/resources/res-b1-sep-b2.c:59-66 | pieces that are slices of one upload, in any order and with repeats, leave the state of storing it in a single piece, over every array, if and only if they cover it and the last one stored ends it |
| EchoRuns.DelayedPieces | contiki-ng/networking/coap/coap-example-server/resources/res-b1-sep-b2.c:59-66 | pieces at 0, 32, 16, 32, 48 of a 64-byte upload store it whole |
| EchoRuns.GapShowsEarlierUpload | contiki-ng/networking/coap/coap-example-server/resources/res-b1-sep-b2.c:59-94 | behind an upload of 256 sevens, pieces at 0 and 96 are answered with a block that ends in 16 sevens |
| Temperature.Resource.PeriodicHandler | contiki-ng/networking/coap/coap-example-server/resources/res-temperature.c:111-125 | notifies exactly at the 59th tick or, from the 5th on, when the reading differs and is not antipodal; counter and reported reading follow |
| Temperature.ChangedIsExact | contiki-ng/networking/coap/coap-example-server/resources/res-temperature.c:118 | the wrapped `abs` test agrees with the exact one if and only if the readings are not 2^31 apart |
| Temperature.SinceLast | contiki-ng/networking/coap/coap-example-server/resources/res-temperature.c:116-121 | in every run the counter is the age of the last notification, below 59, and the stored reading is the one notified |
| Temperature.GapBounds | contiki-ng/networking/coap/coap-example-server/resources/res-temperature.c:55-57 | consecutive notifications are 5 to 59 ticks apart, fewer than 59 only if the readings differ |
| Temperature.NeverStale | contiki-ng/networking/coap/coap-example-server/resources/res-temperature.c:102-124 | the last notification is always younger than Max-Age 60 |
| Temperature.FirstNotification | contiki-ng/networking/coap/coap-example-server/resources/res-temperature.c:60-61 | from start-up the first notification takes at most 54 ticks, and exactly 54 if its reading does not count as a change |
| Temperature.FirstTick | contiki-ng/networking/coap/coap-example-server/resources/res-temperature.c:60-61 | the first tick notifies unless the reading is 0 or INT_MIN |
| Temperature.Accuracy | contiki-ng/networking/coap/coap-example-server/resources/res-temperature.c:111-125 | from 5 ticks after the last notification, the reading is the reported one if and only if the two are not antipodal |
| Temperature.AccuracyInRange | contiki-ng/networking/coap/coap-example-server/resources/res-temperature.c:111-125 | if readings span less than 2^31, at every tick the reading is the reported one or the notification is younger than 5 ticks |
| Temperature.AccuracyCanFail | contiki-ng/networking/coap/coap-example-server/resources/res-temperature.c:118 | a run from start-up in which a change is unreported after 5 ticks |
| Temperature.TicksConserved | contiki-ng/networking/coap/coap-example-server/resources/res-temperature.c:116-121 | over every run, 5 m + counter <= initial counter + ticks <= 59 m + counter for m notifications |
| Temperature.NotificationCount | contiki-ng/networking/coap/coap-example-server/resources/res-temperature.c:60-121 | n ticks from start-up give between (n + 5) / 59 and 1 + (n - 1) / 5 notifications, and at least 1 + (n - 1) / 59 if the first tick notifies |
| Separate.Resource.GetHandler | contiki-ng/networking/coap/coap-example-server/resources/res-separate.c:71-94 | accepts and overwrites the first slot below the limit of two, rejects and changes nothing at it; the second slot is never touched |
| Separate.Resource.ResumeHandler | contiki-ng/networking/coap/coap-example-server/resources/res-separate.c:95-128 | answers the stored request and resets the counter, or changes nothing without an open request or a transaction |
| Separate.Conservation | contiki-ng/networking/coap/coap-example-server/resources/res-separate.c:66-127 | in every run accepted = answered + superseded + open, the counter is the number of accepts since the last answer and at most 2, and the slot is the open request's |
| Separate.AnswersLatest | contiki-ng/networking/coap/coap-example-server/resources/res-separate.c:98-120 | each answer carries endpoint, message id, token, block number and block size of the request accepted last before it, not answered before, with no more flag and the stored text |
| Separate.AnsweredOnceInOrder | contiki-ng/networking/coap/coap-example-server/resources/res-separate.c:84-120 | two answers go to two requests in the order of their acceptance |
| Separate.AnsweredExactly | contiki-ng/networking/coap/coap-example-server/resources/res-separate.c:78-120 | an accepted request is answered if and only if the next accept or answer in the history is an answer, which is then the only one for it and carries its endpoint, message id, token and block |
| Separate.OutcomesFromHistory | contiki-ng/networking/coap/coap-example-server/resources/res-separate.c:78-127 | a request is rejected exactly after two unanswered accepts, a resume answers exactly with a transaction and an open request, and refusals and failures change nothing |
| Mirror.AnyHandler | contiki-ng/networking/coap/coap-example-server/resources/res-mirror.c:59-161 | every size handed to `snprintf` is non-negative exactly when HexFits holds; a text below the limit always fits and is in the buffer whole, any other is there as its prefix of limit - 1 characters and the mark 0xBB when it fits |
| Mirror.Append | contiki-ng/networking/coap/coap-example-server/resources/res-mirror.c:89-117 | one guarded append keeps the buffer a prefix of the unbounded text and the position its reach |
| Mirror.PrintHex | contiki-ng/networking/coap/coap-example-server/resources/res-mirror.c:122-125 | the hex loop appends two digits for each byte, or stops exactly when a size would be negative |
| Mirror.AppendHex | contiki-ng/networking/coap/coap-example-server/resources/res-mirror.c:120-127 | a whole hex section behind one guard, with the exact room it needs |
| Mirror.HexFitsByLength | contiki-ng/networking/coap/coap-example-server/resources/res-mirror.c:82-139 | HexFits holds if and only if there is room for each hex section behind the text an unbounded printer has there, a condition on option lengths alone |
| Mirror.ReachIsLength | contiki-ng/networking/coap/coap-example-server/resources/res-mirror.c:82-152 | the position equals the length of the unbounded text when either is within the limit |
| Mirror.ShortTextFits | contiki-ng/networking/coap/coap-example-server/resources/res-mirror.c:82-152 | a text within the limit never runs out of room |
| Mirror.OpaqueOptionsReadable | contiki-ng/networking/coap/coap-example-server/resources/res-mirror.c:120-139 | token and ETag are decoded from their places in the text |
| MirrorReader.ReadBackExactly | contiki-ng/networking/coap/coap-example-server/resources/res-mirror.c:82-149 | a reader of the line formats gets all fourteen options and the payload back from the text if and only if no string holds a line end or NUL and the payload does not begin like the line of an option that could still come |
| MirrorReader.BlockBack | contiki-ng/networking/coap/coap-example-server/resources/res-mirror.c:140-145 | a block line gives back number, more flag and size |
| MirrorReader.PayloadAsOption | contiki-ng/networking/coap/coap-example-server/resources/res-mirror.c:129-149 | a payload that spells an Observe line is taken for one |
| Mirror.RoomForToken | contiki-ng/networking/coap/coap-example-server/resources/res-mirror.c:104-127 | for a request with a path, a query and a token, the lengths for which the token line has room |
| Mirror.RoomAtDeployedPath | contiki-ng/networking/coap/coap-example-server/resources/res-mirror.c:104-127 | at debug/mirror with limits from 64 on, room is missing exactly when the query line ends within the limit and the token line does not |
| Mirror.NoRoomForToken | contiki-ng/networking/coap/coap-example-server/resources/res-mirror.c:104-127 | at debug/mirror, a query of 40 characters and a token of 8 bytes do not fit at limit 64 |
| ScanJson.Stdout.PrintBuffer | riot/ble/ble_scan/external_modules/ble_rss_scan/ble_rss_scan.c:168-188 | appends the bytes as an array of quoted hex pairs, last to first if reversed |
| ScanJson.Stdout.PrintEntry | riot/ble/ble_scan/external_modules/ble_rss_scan/ble_rss_scan.c:213-251 | appends exactly the text of the entry's node |
| ScanJson.TxPowerTells | riot/ble/ble_scan/external_modules/ble_rss_scan/ble_rss_scan.c:229-237 | the shown power is a signed byte congruent to the field's, and two entries show the same one exactly when their fields agree or one is 127 and the other missing |
| ScanJson.Stdout.PrintList | riot/ble/ble_scan/external_modules/ble_rss_scan/ble_rss_scan.c:193-206 | appends exactly the text of the list, separators between entries only |
| ScanJsonReader.ItemsReadBack | riot/ble/ble_scan/external_modules/ble_rss_scan/ble_rss_scan.c:168-188 | a printed byte array is read back, whatever follows |
| ScanJsonReader.NodeReadBack | riot/ble/ble_scan/external_modules/ble_rss_scan/ble_rss_scan.c:239-250 | a printed entry with a plain name gives back all ten fields, the address in its own order |
| ScanJsonReader.NeverCatchesUp | riot/ble/ble_scan/external_modules/ble_rss_scan/ble_rss_scan.c:242 | a reader that has decoded an escape in a name never ends up with the printed name |
| ScanJsonReader.NameWasPlain | riot/ble/ble_scan/external_modules/ble_rss_scan/ble_rss_scan.c:239-250 | an entry that reads back as printed had a name that needs no escaping |
| ScanJsonReader.ReadableExactly | riot/ble/ble_scan/external_modules/ble_rss_scan/ble_rss_scan.c:193-250 | a JSON reader with all escapes, in the spacing of the dump, gets a list of any length back as printed if and only if no name holds a quote, backslash or control character |
| ScanJsonReader.EntriesReadBack | riot/ble/ble_scan/external_modules/ble_rss_scan/ble_rss_scan.c:193-250 | what is read of a printed list shows every entry of the scan list, all its fields, the complete name or else the short one or else "undefined", and the power as a signed byte, if and only if every shown name is plain |
| ScanJsonReader.QuoteIsUnreadable | riot/ble/ble_scan/external_modules/ble_rss_scan/ble_rss_scan.c:242 | a node named by a quote does not read back |
| ScanJsonReader.BackslashIsLost | riot/ble/ble_scan/external_modules/ble_rss_scan/ble_rss_scan.c:242 | a node named by two backslashes reads back with a name of one |
| ScanJsonUnique.BehindNameUnmarked | riot/ble/ble_scan/external_modules/ble_rss_scan/ble_rss_scan.c:243-245 | within 31 characters behind the end of a name, nothing looks like the end of a name |
| ScanJsonUnique.NodesCancel | riot/ble/ble_scan/external_modules/ble_rss_scan/ble_rss_scan.c:239-250 | equal texts that start with two entries have the same entry first and the same rest |
| ScanJsonUnique.PrintingIsInjective | riot/ble/ble_scan/external_modules/ble_rss_scan/ble_rss_scan.c:193-250 | different lists whose names have up to 31 characters, or no quotes, never print the same text |
| ScanJsonUnique.ShortNameTells | riot/ble/ble_scan/external_modules/ble_rss_scan/ble_rss_scan.c:219-229 | changing the short name changes the text if and only if there is no complete name, "undefined" standing for none |
| ScanJsonUnique.PrintingCollides | riot/ble/ble_scan/external_modules/ble_rss_scan/ble_rss_scan.c:242 | any two nodes print as one node with a longer name that holds quotes |
| Text.Snprintf | contiki-ng/networking/coap/coap-example-server/resources/res-mirror.c:83-87 | the assumed contract of `snprintf` on a buffer |
| Text.AppendCut | contiki-ng/networking/coap/coap-example-server/resources/res-chunks.c:78 | an append of size limit - position + 1 leaves the longer text in the buffer, cut at the limit |
| Text.ParseSigned | riot/ble/ble_scan/external_modules/ble_rss_scan/ble_rss_scan.c:245-246 | a printed signed number is read back |
| Text.HexStringRoundTrip | contiki-ng/networking/coap/coap-example-server/resources/res-mirror.c:123-125 | the two-digit conversions of any bytes decode to those bytes |

## Left out

- GcoapCli.Cli.Send: does not model the parsing of interface, address and port (lines 122-159), whose result is a parameter, because it consists of calls into the network stack.
- The CoAP engines, NimBLE, sockets, shells, sensors and timers: their sources are not part of this model; see the assumptions above.
- Messages on the console, the counting delay loop of the echo resource, the fixed headers of the mirror reply (except Size1) and the temperature GET reply, of which only Max-Age is used.
- The payload length the mirror hands over is its position, which can pass the buffer; cutting it to the limit is the engine's part.
- The 20-bit limit of block numbers, and a request header that does not fit the client's buffer.
- Several transfers of the client at a time, which its own comment excludes.
- Finding name and transmit power in the raw advertising data: done by a library that is not part of this model.
- Advertising start, stop and data in `ble_rss_scan.c`: driver calls around a copy of the data.
- `riot/networking/lwm2m` and `riot/security/ota`: reply codes and commands over library objects.
- The other Contiki-NG resources: one sensor value, LED or counter each; and the exercise skeletons, which hold no program logic yet.
