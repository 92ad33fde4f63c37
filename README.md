# usb2sock bridge core in Dafny

usb2sock forwards the H.264 stream that a pair of DJI goggles sends over USB bulk transfers to any number of local TCP clients. This project models the sequential logic of `usb2sock/usb2sock.c`:

- the client registry `clientlist[1024]` / `clientlist_use`;
- the two non-blocking sweeps over it: `recv_and_discard` and `send_to_socket`;
- the endpoint scan of `start_with_a_device` and its per-device outcome;
- the classification of the handshake and bulk-read results in `start_stream`;
- the device-list loop and the exit-or-retry decision of `start_usb2sock`.

Every operating-system and libusb call is replaced by an oracle: an input value or sequence standing for the answers those calls give.

- `read()` and `write()` on peer sockets consume, one per call, the elements of a `ReadResult` / `WriteResult` sequence. A sequence that has run out answers EAGAIN, so each sweep ends.
- `write()` meets a socket with room for `room` bytes and returns `min(room, count)`.
- `accept()` is an `AcceptEvent`.
- libusb answers for one device are a `DeviceOracle`.
- The passes of the endless streaming and supervisor loops are finite sequences (`Tick`, `Round`).

The modules follow the program's structure:

- `Codes`: the program's constants, the libusb error values, and Darwin's errno values. EAGAIN and EWOULDBLOCK are both 35 there; the source uses `SO_NOSIGPIPE`, which is a Darwin option.
- `Fanout`: the fan-out state as a value, `Peers(clients, closed, sent)`. `closed` logs every descriptor passed to `close()`; `sent` logs every successful `write()` as a byte range of `buf`. The module also holds the pure specifications of `close_client`, of the registry part of `accept_any_connection` and of the two sweeps, the lemmas about them, and the as-written model of `close_client`'s `memmove`.
- `Descriptors`: the configuration descriptor tree, and the nested endpoint scan as methods proved against the functions `FirstEndpoint` and `LastMatch`.
- `Classify`: the branch-only decisions for the handshake, the bulk read, the device list and the supervisor.
- `Device`: specifications of one streaming session, of `start_with_a_device` for one device, and of the supervisor loop.
- `Usb2Sock`: class `Bridge`, holding `clientlist` as an `array` with its count and the two logs. Its methods are the imperative procedures of the C file. Each is proved against the specification functions through `Snapshot()`.

In these places the program does something a reader might not expect, and the model follows the code:

- The USB handle is not released when `libusb_set_configuration` or `libusb_get_config_descriptor` fails (usb2sock.c:302, 312).
- A peer whose `O_NONBLOCK` cannot be set is closed and still registered (126-133).
- A peer whose address length is wrong is neither closed nor registered (116-119).
- A failed `libusb_open` returns `WAIT_FOR_HOTPLUG` (287).
- Only `LIBUSB_ERROR_IO` on the handshake waits for hotplug (213-215). `NO_DEVICE` and `NOT_FOUND` there are returned as they are (216-218), so the supervisor exits with them (458-460). On the bulk read, all three codes wait for hotplug (242-250).
- A list without the goggles in which every device descriptor could be read yields `VENDOR_ID_DJI` (0 for an empty list), rather than a separate "not found" result. A failed descriptor read ends the scan with its error (271-275, 453-454).
- `close_client` is the one exception: its `memmove` moves too few bytes (93). `Usb2Sock.Bridge.CloseClient` performs the intended shift, and the code as written is modelled beside it (see "## Findings").

## Model

| member | source | states |
|---|---|---|
| Fanout.RemovedShiftsDown | usb2sock/usb2sock.c:88-94 | Removing slot i shortens the list by one. Entries before i are unchanged and entries after i move down one slot. The result is an order-preserving subsequence, and with the removed fd added back it is the same multiset. |
| Fanout.ShiftedIsRemoved | usb2sock/usb2sock.c:91-93 | Proof helper for CloseClient: a list equal to `s` before i and to s's next entry from i on is exactly `Removed(s, i)`. |
| Fanout.SubseqOfRemoved | usb2sock/usb2sock.c:91-93 | The list left by removing one slot keeps the relative order of the original list. |
| Fanout.CloseAt | usb2sock/usb2sock.c:88-94 | close_client on the fan-out state shrinks the registry by exactly one. |
| Fanout.AcceptRespectsCapacity | usb2sock/usb2sock.c:116-133 | Accept never grows the registry past 1024. It either leaves the registry unchanged or appends exactly the accepted fd at index clientlist_use, and only below capacity. At capacity the fd is closed and the registry is unchanged. Nothing is sent. |
| Fanout.PeerDrainVerdict | usb2sock/usb2sock.c:139-157 | A peer's drain reads data until its first read that returns no data. The peer survives exactly when that read would block; on end of file or an error it is removed. |
| Fanout.DrainPartitions | usb2sock/usb2sock.c:139-157 | The drain handles every peer exactly once: survivors and removed peers partition the list (multisets), each in its original order, and nothing is sent. |
| Fanout.QuietDrainKeepsAll | usb2sock/usb2sock.c:140-147 | When every read would block, every peer survives and none is closed. |
| Fanout.ClosedPeerRemoved | usb2sock/usb2sock.c:151-154 | A peer whose read returns 0 (end of file) is removed, and the sweep goes on with the next peer in the same slot. |
| Fanout.DrainKeepStep | usb2sock/usb2sock.c:143-146 | Proof helper for the Bridge loop: a would-block read keeps the first peer and moves on. |
| Fanout.DrainDropStep | usb2sock/usb2sock.c:148-154 | Proof helper for the Bridge loop: end of file or a non-would-block error removes the first peer. |
| Fanout.DrainDataStep | usb2sock/usb2sock.c:156 | Proof helper for the Bridge loop: data read from a peer is discarded and the same peer is read again. |
| Fanout.DrainFromStart | usb2sock/usb2sock.c:139 | Proof helper for the Bridge loop: the sweep resumed at slot 0 with a fresh oracle is recv_and_discard as a whole. |
| Fanout.DrainFromEnd | usb2sock/usb2sock.c:139 | Proof helper for the Bridge loop: once the index reaches clientlist_use the sweep is finished and the state is final. |
| Fanout.DrainFromKeep | usb2sock/usb2sock.c:143-146 | Proof helper for the Bridge loop: on would-block the loop advances i, and the remaining sweep is unchanged. |
| Fanout.DrainFromDrop | usb2sock/usb2sock.c:148-154 | Proof helper for the Bridge loop: on end of file or an error the loop calls close_client(i) without advancing, and the remaining sweep is unchanged. |
| Fanout.DrainFromData | usb2sock/usb2sock.c:156 | Proof helper for the Bridge loop: on data the loop stays on slot i, and the remaining sweep is unchanged. |
| Fanout.Written | usb2sock/usb2sock.c:168 | write() never reports more bytes than buflen - ofs asked. |
| Fanout.PeerSendDelivers | usb2sock/usb2sock.c:166-186 | One peer receives the contiguous run buf[ofs..reached) in non-empty pieces, and reached <= buflen. |
| Fanout.PeerSendVerdict | usb2sock/usb2sock.c:166-186 | A peer's visit ends at its first non-partial write: every earlier write of the visit took at least one byte, and there are at least as many deliveries as earlier writes. The peer is removed exactly when that write failed with an error other than would-block. A kept peer that got less than the whole buffer last met a write that took nothing, so the rest of the frame is dropped for it. Every delivery goes to that peer. |
| Fanout.SendKeepStep | usb2sock/usb2sock.c:177-185 | Proof helper for the Bridge loop: a would-block, zero-byte or completing write keeps the first peer with what it delivered, and the next peer starts at offset 0. |
| Fanout.SendDropStep | usb2sock/usb2sock.c:169-176 | Proof helper for the Bridge loop: a non-would-block failure removes the first peer, and the next peer starts at offset 0. |
| Fanout.SendPartialStep | usb2sock/usb2sock.c:178-181 | Proof helper for the Bridge loop: a partial write delivers buf[ofs..ofs+n) and writes the same peer again at ofs+n. |
| Fanout.SendFromStart | usb2sock/usb2sock.c:166-167 | Proof helper for the Bridge loop: the sweep resumed at slot 0, offset 0, with a fresh oracle is send_to_socket as a whole. |
| Fanout.SendFromEnd | usb2sock/usb2sock.c:167 | Proof helper for the Bridge loop: once the index reaches clientlist_use the broadcast is finished and the state is final. |
| Fanout.SendFromSkip | usb2sock/usb2sock.c:177-185 | Proof helper for the Bridge loop: on would-block or a zero-byte write the loop resets ofs and advances i with nothing logged, and the remaining sweep is unchanged. |
| Fanout.SendFromFinish | usb2sock/usb2sock.c:178-185 | Proof helper for the Bridge loop: a write that completes the buffer is logged as buf[ofs..buflen), ofs is reset and i advances, and the remaining sweep is unchanged. |
| Fanout.SendFromDrop | usb2sock/usb2sock.c:169-176 | Proof helper for the Bridge loop: on a non-would-block failure the loop calls close_client(i) and resets ofs without advancing, and the remaining sweep is unchanged. |
| Fanout.SendFromPartial | usb2sock/usb2sock.c:178-181 | Proof helper for the Bridge loop: on a partial write the loop logs it, advances ofs and stays on slot i, and the remaining sweep is unchanged. |
| Fanout.SendPartitions | usb2sock/usb2sock.c:167-186 | The broadcast handles every peer exactly once: kept and removed peers partition the list, each in its original order. |
| Fanout.SendStaysInBuffer | usb2sock/usb2sock.c:166-186 | Every delivery of a broadcast is a non-empty range inside buf[0..buflen) and goes to a registered peer. |
| Fanout.ContiguousBounded | usb2sock/usb2sock.c:178-181 | The pieces of a contiguous run lie inside its bounds. |
| Fanout.BlockedSendKeepsAll | usb2sock/usb2sock.c:169-185 | When every write would block, the broadcast keeps every peer, closes none and sends nothing. |
| Fanout.SlowPeerGetsPrefix | usb2sock/usb2sock.c:177-185 | A peer that takes m < buflen bytes and then would block gets exactly buf[0..m) and is kept. |
| Fanout.CloseAsWritten | usb2sock/usb2sock.c:88-94 | close_client as written, with the byte-count memmove: one entry shorter, and entries before i unchanged. |
| Fanout.WordFromBytes | usb2sock/usb2sock.c:93 | A 32-bit fd is the weighted sum of its four little-endian bytes, the units memmove copies. |
| Fanout.CloseAsWrittenBreaksShift | usb2sock/usb2sock.c:93 | With at least two entries after i whose last two differ, the as-written close_client does not shift the list down. |
| Fanout.CloseAsWrittenExample | usb2sock/usb2sock.c:93 | Closing slot 0 of [10, 20, 30] as written leaves [20, 20], not [20, 30]. |
| Descriptors.FirstEndpoint | usb2sock/usb2sock.c:326-339 | The first endpoint address of the asked direction, or -1 exactly when no endpoint has that direction. |
| Descriptors.FirstEndpointExtend | usb2sock/usb2sock.c:328-339 | One more endpoint keeps an address already found, or records it when it is the first of its direction. |
| Descriptors.FoundEndpointDirection | usb2sock/usb2sock.c:333-338 | A found endpoint is a byte address whose 0x80 bit matches the asked direction. |
| Descriptors.LastMatchNone | usb2sock/usb2sock.c:314-351 | find_FF_43, inEndpoint and outEndpoint all stay -1 exactly when no interface matches. |
| Descriptors.LastMatchIsLast | usb2sock/usb2sock.c:317-351 | When some interface matches, the last matching interface is selected, with the first IN and OUT endpoints of its alternate 0. |
| Descriptors.LastMatchDirections | usb2sock/usb2sock.c:333-345 | The selected inEndpoint has the 0x80 bit set and outEndpoint has not. |
| Descriptors.ScanEndpoints | usb2sock/usb2sock.c:326-339 | The endpoint loop leaves firstIn and firstOut at the first IN and first OUT address of the alternate setting, or -1. |
| Descriptors.ScanInterfaces | usb2sock/usb2sock.c:314-351 | The nested scan selects the last 0xFF/0x43 interface whose alternate 0 has both directions. The result is all -1 exactly when there is none, and otherwise its IN and OUT endpoints have the right direction bits. |
| Classify.ClassifyHandshake | usb2sock/usb2sock.c:210-222 | The stream proceeds exactly on TIMEOUT with 0 bytes sent or on success with all 4 bytes sent. IO gives WAIT_FOR_HOTPLUG; any other error, including TIMEOUT with bytes sent, is returned unchanged; a short success gives TIMEOUT. |
| Classify.ClassifyBulkRead | usb2sock/usb2sock.c:237-260 | No signal exactly on TIMEOUT with 0 bytes. IO, NO_DEVICE and NOT_FOUND give WAIT_FOR_HOTPLUG, other errors are returned, and success delivers exactly the bytes received. |
| Classify.DeviceListFirstDecides | usb2sock/usb2sock.c:449-455 | Devices answering VENDOR_ID_DJI are skipped, and the first other code decides the device loop. |
| Classify.DeviceListAllSkipped | usb2sock/usb2sock.c:449-455 | When every device answers VENDOR_ID_DJI the loop's code is VENDOR_ID_DJI, or 0 for an empty list. |
| Classify.SupervisorDecision | usb2sock/usb2sock.c:457-466 | The supervisor retries exactly on WAIT_FOR_HOTPLUG or VENDOR_ID_DJI, and otherwise exits with that code. |
| Classify.EmptyDeviceListExits | usb2sock/usb2sock.c:449-457 | An empty device list leaves r at 0, so the supervisor exits with 0. |
| Device.LoopCodeRange | usb2sock/usb2sock.c:231-263 | The streaming loop returns 0 exactly when no bulk read stopped it, and otherwise WAIT_FOR_HOTPLUG or a negative libusb error. |
| Device.StreamCodeRange | usb2sock/usb2sock.c:207-263 | start_stream returns 0, WAIT_FOR_HOTPLUG or a negative error, never VENDOR_ID_DJI. |
| Device.NoSignalIsIdle | usb2sock/usb2sock.c:232-241 | A zero-byte timeout never ends the loop and sends nothing: the session goes on from the state its accept and drain left. On a pass with no socket activity it is as if the pass had not happened. |
| Device.DeviceGoneKeepsPeers | usb2sock/usb2sock.c:232-250 | An unplugged device (IO, NO_DEVICE, NOT_FOUND) ends the session with WAIT_FOR_HOTPLUG, in the state the pass's accept and drain left: nothing is sent and no further peer is closed. On a quiet pass every peer stays registered. |
| Device.HandshakeIoWaits | usb2sock/usb2sock.c:207-215 | An I/O error on the handshake returns WAIT_FOR_HOTPLUG before any pass, leaving every peer untouched. |
| Device.LoopStep | usb2sock/usb2sock.c:231-261 | Proof helper for StartStream: a pass whose bulk read stops the loop returns that code after its socket work; any other pass leaves the rest of the loop to the later passes. |
| Device.LoopKeepsCapacity | usb2sock/usb2sock.c:231-261 | No sequence of streaming passes grows the registry beyond 1024 entries. |
| Device.WrongDeviceSkipped | usb2sock/usb2sock.c:271-280 | A device answers VENDOR_ID_DJI exactly when its descriptor was read and it is not the goggles. Such a device is never opened and leaves the peers alone. |
| Device.HandleLeftOpenOnlyWhenFatal | usb2sock/usb2sock.c:297-312 | A handle is left open only on a path returning a negative error, on which the supervisor exits. Every retrying outcome has closed or never opened its handle. |
| Device.ClaimsSelectedInterface | usb2sock/usb2sock.c:353-374 | The interface claimed is the scan's selection, -1 exactly when nothing matched. start_stream runs exactly when the claim and the re-check of the configuration succeed. |
| Device.FirstDecidingDevice | usb2sock/usb2sock.c:449-455 | The first device whose descriptor read fails or that is the goggles decides the device loop's code and the fan-out state; every device before it is skipped untouched. |
| Device.NoDecidingDevice | usb2sock/usb2sock.c:449-455 | Without such a device the loop's code is VENDOR_ID_DJI, or 0 for an empty list, and no device touches the fan-out state. |
| Device.ThirdDeviceSelected | usb2sock/usb2sock.c:451-455 | Two other devices are skipped, and the goggles listed third decide both the code and the fan-out state. |
| Device.SupervisorExitsOnlyWhenDecisive | usb2sock/usb2sock.c:444-467 | The supervisor leaves only with 0 or a code other than WAIT_FOR_HOTPLUG and VENDOR_ID_DJI. It keeps running exactly when every pass decides to retry. |
| Usb2Sock.Bridge.constructor | usb2sock/usb2sock.c:84-85 | The registry starts empty, with nothing closed and nothing sent. |
| Usb2Sock.Bridge.CloseClient | usb2sock/usb2sock.c:88-94 | close_client closes slot i's fd and shifts the later entries down one element at a time, leaving exactly CloseAt (an order-preserving removal). |
| Usb2Sock.Bridge.AcceptAnyConnection | usb2sock/usb2sock.c:96-134 | The registry and the close log change exactly as AcceptStep says: a wrong address length changes nothing, at capacity the fd is only closed, and otherwise it is stored at clientlist[clientlist_use] (and also closed if O_NONBLOCK failed). |
| Usb2Sock.Bridge.RecvAndDiscard | usb2sock/usb2sock.c:136-158 | The in-place index-with-removal loop reaches exactly DrainStep, so every peer is visited once with no skip. |
| Usb2Sock.Bridge.SendToSocket | usb2sock/usb2sock.c:160-187 | The in-place loop with the running offset reaches exactly SendStep: same survivors, closes and deliveries. |
| Usb2Sock.Bridge.StartStream | usb2sock/usb2sock.c:190-264 | The handshake and the passes return StreamCode and leave the fan-out state at StreamPeers. |
| Usb2Sock.Bridge.StartWithDevice | usb2sock/usb2sock.c:266-377 | The outcome for one device, including which handle was opened, claimed and closed, is DeviceOutcome, and the fan-out state is DevicePeers. |
| Usb2Sock.Bridge.SuperviseRound | usb2sock/usb2sock.c:444-467 | One supervisor pass decides RoundDecision and leaves the state at RoundPeers. |
| Usb2Sock.Bridge.StartUsb2Sock | usb2sock/usb2sock.c:444-471 | The supervisor over a finite run of passes exits with SupervisorExit and leaves the state at SupervisorPeers. |

## Left out

- libusb initialisation, the log callback and the hotplug registration (usb2sock.c:50-72, 381-404) are foreign-library setup. The `connected` flag they write is never read.
- The listening socket's creation, options, bind, listen and `O_NONBLOCK` (406-442), with their `return 1` paths, are operating-system setup. `SuperviseRound` starts after them.
- Formatting the client address for the log (109-115) is not modelled; neither are `printf`/`fflush` lines, the ANSI escapes, the `usleep` back-off, or the display counter `count` (230-241, 256, 462-466).
- The bytes themselves are not modelled. A delivery records the range of `buf` that `write()` took, and the bulk read's data is represented only by its length.
- The length a bulk read reports is not bounded by `sizeof(buf)` (128 KiB). That bound is libusb's promise, not the program's.
- `libusb_free_device_list`, `libusb_close`, `libusb_exit` and the configuration descriptor, which is never freed, are not modelled. Whether a handle is closed is recorded in `DeviceRun`.
- `libusb_claim_interface(usbdev, -1)` when no interface matched: the model records the -1 it is called with, and the oracle decides its result.
- Log-only branches are not modelled: a get_configuration failure before claiming, the warning for a matching interface at a non-zero alternate index, "no alt", and `cfg != 1` after claiming. They change nothing but the console. `DeviceOracle.recheckCfg` and `numConfigurations` are accepted and ignored, as the code ignores them beyond logging.
- The endless `for (;;)` loops of `start_stream` and `start_usb2sock` run over finite sequences of passes. A streaming loop whose passes run out returns 0, the unreachable `return 0`. A supervisor whose passes run out reports `None`, that is, still running.
- A read or write oracle that runs out answers EAGAIN. This models a peer with nothing more to say, which is what makes every sweep finish.
- A peer that never stops sending is not captured. `recv_and_discard` stays on a peer for as long as `read` returns data (156), so such a peer holds the sweep forever and starves the USB path. A finite read oracle cannot express that run, so the model only describes sweeps that end.
- Usb2Sock.Bridge.RecvAndDiscard: the two branches that call `close_client` (read error, end of file) are one branch, because their effect is identical.

## Findings

| source | as written | input that shows it | evidently intended | confidence | as-written member | corrected member |
|---|---|---|---|---|---|---|
| usb2sock/usb2sock.c:93 | `memmove(&clientlist[i], &clientlist[i + 1], clientlist_use - i)` passes the number of entries as a byte count, so only a quarter of the 4-byte entries move | registry [10, 20, 30], close_client(0): memmove moves 2 bytes, leaving [20, 20] where [20, 30] is intended | move `(clientlist_use - i) * sizeof(int)` bytes, shifting every later entry down one slot | not executed | Fanout.CloseAsWritten (with Fanout.CloseAsWrittenBreaksShift, Fanout.CloseAsWrittenExample) | Usb2Sock.Bridge.CloseClient |
