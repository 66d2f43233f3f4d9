# The Amlogic USB update tool, verified

A Dafny model of the parts of the tool where things can go wrong in the middle: the registry of
USB busses and devices, the engine that moves memory over an unreliable link, the BL2 boot and
media downloads that the device drives, and the two checksums they use. `dafny verify
dfyconfig.toml` checks everything.

The build that is modelled is the one CMake produces: `BUGFIX` is defined and the libusb-1.0
compatibility layer is in use.

## How it is put together

**The link.** `Link.dfy` has the one assumption everything above it shares: the device is an
arbitrary script, one reply for each transfer, and every reply is free to fail, to come up short
or empty, to carry any bytes and to take any time. Past its end every transfer fails. So a
statement about all scripts is a statement about all devices and all runs of finite length. A
transfer that moves device memory acts on a memory of 2^32 bytes whose addresses wrap: the bytes
that got through count, whatever the host is told, and a large-memory header opens a session only
if all 16 of its bytes got through. The `Device` class keeps the log of all requests; request
number i is answered by reply number i. `Run` is what a stretch of transfers makes of a device,
and `Received` what it puts into host buffers; contracts of methods that talk to the device give
their whole log as a function of the inputs and the replies.

**Registry.** `LinkedLists.dfy` has the intrusive doubly linked lists with `LIST_ADD` and
`LIST_DEL`; `Reconciliation.dfy` the walk both scans share, which cancels a new list against the
known one while deleting from both; `BusRegistry.dfy` the scans themselves; `RegistryRuns.dfy`
what they mean for a node over time; `DeviceScan.dfy` the device picker on top, whose main result
is that the handle obtained for the k-th reported name is the very node that was reported.
`Descriptors.dfy` has the copies of libusb's descriptor trees, over a heap with a ledger of
allocated blocks, and the life of a device from the scan that finds it to the one that misses it.
`DeviceHeap.dfy` runs the device scan over lists of such devices: after any scan the ledger is
exactly the blocks of the devices listed, and libusb has lent exactly one reference for each.
`ScanViews.dfy` shows that this scan and the registry's agree on which devices are listed.

**Memory transfers.** `ControlMem.dfy` has the 64-byte control transfers in both encodings;
`LargeMem.dfy` one call of the header and bulk loops with their retries; `LargeRuns.dfy` several
such calls in a row; `UpdateWrite.dfy` and `UpdateRead.dfy` the commands. At each level the log is
determined by the replies, and the main result is what the log does to memory: byte by byte for
every run, and as one flat copy, file[skip, skip + n) at [addr, addr + n) with every other byte
unchanged, if and only if nothing came up short on the way. A `read` or `dump` asks for pieces
that cover the range once, and brings device memory under the same kind of condition. The
conditions are about the run's own transfers and start from a device without a session left half
done, as only that could take bytes that were meant for another.

**Downloads.** `Bl2.dfy` has one BL2 download as a closed form, the plan, and the host that sends
a prefix of it; `Bl2Boot.dfy` the boot loop; `Bl2Test.dfy` the second sender and when the two
agree. `Polling.dfy`, `Media.dfy`, `MediaFile.dfy` and `Mwrite.dfy` have the media download from
one poll up to the whole mwrite command. For both protocols the rules are stated a second time, as
a monitor that reads the log of transfers and replies and knows nothing of the host; the main
results are that no run of the host breaks a rule, whatever the device does. A monitor reads the
bytes of blocks, headers and replies itself and shares no function with the host.

**Checksums.** `Checksum.dfy` defines the sum of the w-byte little-endian words of a byte string
and proves both functions against it: with w = 4 and arithmetic modulo 2^32, and with w = 2, the
one's-complement sum of section 4.1 of RFC 1071, which two folds complete up to exactly 131076
bytes.

**In numbers.** A function that both a method and its contract are written with could be wrong in
both. So what such functions come to is stated once more, without them, as plain bytes, offsets,
positions in the log and codes: in further clauses of the commands' contracts, and in lemmas most
of which have names that end in `InNumbers`, `Is` or `ReadsBack`.

Where the code promises something only under a condition, the condition is proved to be exact:
the two-fold limit, the device numbers that stay inside the list of names, the 64 KiB one write
header can announce, the read header's count, the 32 MiB that CMD4 can address, the control transfer
or large-memory header that libusb reports as a success though fewer bytes moved (with runs that
show it happens), the command blocks on which the two BL2 senders agree, the text that fits a TPL
command.

## Where code and documentation differ

The model follows the code. `PROTOCOL.md` gives the header of a large read in big-endian and the
data on endpoint 3 (PROTOCOL.md:289-296); the code stores both fields little-endian, like those of
a write. The last two words of the 16-byte header, unknown to the document, are the checksum and
the sequence number. The media header carries sixteen times the chunk number where its parameter
is called a checksum and the checksum where it is called a sequence number
(UsbRomDrv.cpp:583-589).

`update_scan` returns 0 for a success and a negative code for a failure. The `down` command takes
everything up to 0 for a failure (update.cpp:1552-1560), so it reports that it cannot find a device
and never downloads.

## Model

| member | source | states |
|---|---|---|
| Checksum.Checksum64K | checksum.h:26-46 | the 32-bit accumulator ends as the exact sum of the little-endian four-byte words, ragged tail included, modulo 2^32; for a length that is negative as an int, only a tail from the front is summed |
| Checksum.WordSumOfOne | checksum.h:26-46 | the sum of one word, whole or ragged, is its bytes with the weights 1, 256, 65536 and 2^24 |
| Checksum.WordSumSplits | checksum.h:26-46 | a word sum splits at every word boundary |
| Checksum.Checksum64KSplits | checksum.h:26-46 | the checksums of two parts add up to that of the whole at any 4-aligned point |
| Checksum.ChecksumAdd | checksum.h:5-23 | the result is the exact word sum, folded exactly twice, complemented unless noFlip; up to 131076 bytes it is the sum modulo 65535, and zero only for zero data, before the complement; for a length that is negative as an int, the sum is the first byte |
| Checksum.FoldAll | checksum.h:15-16 | folding until no carry is left keeps the sum modulo 65535 and gives zero only for zero |
| Checksum.WordSumZero | checksum.h:5-23 | the sum is zero exactly for all-zero data |
| Checksum.TwoFoldsAreAll | checksum.h:15-16 | up to 131076 bytes the result is the sum of RFC 1071, with and without the complement |
| Checksum.TwoFoldsFail | checksum.h:15-16 | at every greater length below 2^31 a given buffer comes out as zero data would, though it is not zero |
| Checksum.NegativeLengthFails | checksum.h:5-23 | so does a given buffer at every length from 2^31 on, whose int is negative |
| Checksum.TwoFoldLimitIsTight | checksum.h:5-23 | for each length that a 32-bit word can give, checksum_add is the sum of RFC 1071 on all buffers if and only if it is at most 131076, complemented or not |
| Checksum.ReceiverSeesAllOnes | checksum.h:5-23 | with the complemented sum behind data of whole words, the sum of all of it is all ones, as section 4.1 of RFC 1071 has a receiver check |
| LinkedLists.List.Add | usbcompat.h:257-266 | LIST_ADD keeps a well-formed doubly linked list and puts the entry in front |
| LinkedLists.List.Delete | usbcompat.h:268-278 | LIST_DEL removes exactly that entry, keeps the order of the others, and clears its links |
| Reconciliation.CancelOne | usbcompat.h:457-469 | the search for a key deletes the one entry that has it and frees it, and reports whether there was one |
| Reconciliation.Cancel | usbcompat.h:448-480 | deleting while walking leaves the known entries found again and the new entries not known, both in order and the same nodes; the count is that of the deleted; every deleted entry is freed |
| Reconciliation.Adopt | usbcompat.h:482-491 | moving the leftovers puts those that pass in front, in reverse, and counts them; the others are freed |
| Reconciliation.PushedReverses | usbcompat.h:482-491 | pushing one by one is prepending the reversed list |
| Reconciliation.Reconcile | usbcompat.h:783-826 | both phases together: new entries, then surviving ones; removals plus admissions; afterwards exactly the listed entries are allocated |
| BusRegistry.FindBusses | usbcompat.h:360-417 | one new bus for each bus number, de-duplicated, in reverse order of first mention |
| BusRegistry.HasLocation | usbcompat.h:384-401 | the search finds a location exactly if a bus of the list has it |
| BusRegistry.BussesResult | usbcompat.h:429-494 | cancelling and moving gives new locations in libusb's order, then old nodes still present in their order |
| BusRegistry.ReconcileBusses | usbcompat.h:429-494 | the list stays well formed with unique locations, is the reconciled one, and the count is removed plus added |
| BusRegistry.FindDevices | usbcompat.h:496-525 | one entry for each libusb device on the bus, with its address as number |
| BusRegistry.ReconciledStaysGood | usbcompat.h:783-826 | unique numbers, right bus and a finished initialisation survive reconciling |
| BusRegistry.DevicesResult | usbcompat.h:783-826 | cancelling and moving gives new devices that initialised in libusb's order, then old nodes still present |
| BusRegistry.ReconcileBus | usbcompat.h:775-828 | one bus is reconciled, with the count of removals plus successful additions; of the known devices, exactly those listed are still allocated |
| BusRegistry.Registry.UsbFindBusses | usbcompat.h:429-494 | the whole registry stays valid; with an enumeration the busses are reconciled, and the result is the number of busses gone plus that of busses come; on an error nothing changes and the code is returned |
| BusRegistry.Registry.UpdateBus | usbcompat.h:775-828 | one turn changes this bus's devices only |
| BusRegistry.Registry.UpdateAll | usbcompat.h:775-828 | after the walk every bus is reconciled, and the counts add up |
| BusRegistry.Registry.UsbFindDevices | usbcompat.h:755-836 | every bus's devices are reconciled, no device is on two busses, and the result is the number of devices gone from all busses plus that of devices come to any |
| RegistryRuns.StagesCompose | AmlUsbScanX3.cpp:34-36 | the two scans in turn are one rescan, busses first |
| RegistryRuns.BusSurvives | usbcompat.h:429-494 | a bus still listed keeps its node |
| RegistryRuns.DeviceSurvives | usbcompat.h:755-836 | a device still listed keeps its node and its bus, whatever else came or went |
| RegistryRuns.DeviceVanishes | usbcompat.h:755-836 | a pair no longer listed is gone under every node |
| RegistryRuns.StillThereIs | usbcompat.h:429-836 | a pair is still listed if the bus list has an entry on that bus and the device list one with both numbers |
| RegistryRuns.EntryOfBus | usbcompat.h:429-494 | a bus after a scan is one that the list mentions |
| RegistryRuns.BussesMean | usbcompat.h:429-494 | every bus that the list mentions is there after a scan, and one known before is the same node |
| RegistryRuns.BussesInOrder | usbcompat.h:429-494 | new busses come first, in the order in which the list first mentions them, and those known before follow in the order they had |
| RegistryRuns.EntryOfDevice | usbcompat.h:775-833 | a device after a scan is listed for its bus, and a new one initialises |
| RegistryRuns.DevicesMean | usbcompat.h:775-833 | every listed device that initialises is there after a scan, and one known before is the same node |
| RegistryRuns.DevicesInOrder | usbcompat.h:775-833 | new devices come first, in the order of the list, and those known before follow in the order they had |
| RegistryRuns.UnchangedRescanIsNoOp | usbcompat.h:429-836 | a rescan with an unchanged list keeps all nodes in order and counts no change |
| DeviceScan.NamesAreInjective | AmlUsbScanX3.cpp:46-50 | two names are equal exactly if bus location and device number are |
| DeviceScan.NameReadsBack | AmlUsbScanX3.cpp:46-50 | the two decimal numbers in a name, at their places, are the location and the device number |
| DeviceScan.CandidatePlace | AmlUsbScanX3.cpp:39-44 | a candidate is a listed device with vendor 0x1B8E and product 0xC003 |
| DeviceScan.CandidatesAreAll | AmlUsbScanX3.cpp:39-44 | every such device is a candidate |
| DeviceScan.CandidatesInOrder | AmlUsbScanX3.cpp:39-65 | candidates come bus by bus, and on each in the order of its devices |
| DeviceScan.NamesAreUnique | AmlUsbScanX3.cpp:39-65 | in one registry a name belongs to one candidate |
| DeviceScan.ScanBus | AmlUsbScanX3.cpp:40-64 | a listing collects the names of the matching devices up to the limit, a search stops at the first that has the name |
| DeviceScan.Walk | AmlUsbScanX3.cpp:38-68 | over all busses: the names of all candidates, or a candidate with the name, or none |
| DeviceScan.ScanDevices | AmlUsbScanX3.cpp:27-69 | refreshes the registry, then reports from it; an unsupported vendor changes nothing |
| DeviceScan.AmlScanUsbX3Devices | AmlUsbScanX3.cpp:72-94 | the names of the first candidates in registry order and their number, or -1 |
| DeviceScan.SearchFindsTheReportedDevice | AmlUsbScanX3.cpp:46-61 | a later search for a reported name finds the same node exactly if its pair is still listed, and nothing otherwise |
| DeviceScan.AmlGetDeviceHandle | AmlUsbScanX3.cpp:97-124 | the candidate of the refreshed registry that has the name, or null if none has; for a name known before, the same node if it is still listed, else null |
| DeviceScan.UpdateScan | update.cpp:389-455 | what comes of a scan for every device number: the codes for no device, a number too large and no place for a handle; a read outside of the names for a negative number other than -2; and else the node reported at that index, if it is still there at the second scan; the registry is as listed, refreshed once more if a handle was fetched |
| DeviceScan.NumberIsSafeIff | update.cpp:417-433 | the name that is read is a reported one if and only if the number is -2 or not negative, or nothing was reported |
| DeviceScan.SlashIsOutOfRange | update.cpp:1540-1544 | "dev/" makes -1 of it and reads outside of the names as soon as one device is there |
| DeviceScan.DownIsSafeIff | update.cpp:1540-1554 | the down command stays inside, for any number of devices, if and only if the character is an ASCII one not below "0", or is "." |
| Descriptors.Heap.Free | usbcompat.h:537-574 | only an allocated block can be freed, so none twice |
| Descriptors.CopyEndpoint | usbcompat.h:584-598 | the endpoint equals the source, with its extra bytes in a block of its own if there are any |
| Descriptors.CopySetting | usbcompat.h:600-632 | an alternate setting with all its endpoints equals the source, in new blocks that occur once |
| Descriptors.CopyInterface | usbcompat.h:634-658 | the same for an interface and its alternate settings |
| Descriptors.CopyConfig | usbcompat.h:660-692 | the same for a configuration: structurally equal, all blocks new and distinct, the ledger grown by exactly them |
| Descriptors.ConfigIsExact | usbcompat.h:660-692 | a copy in memory is the copy of one source only |
| Descriptors.ClearSetting | usbcompat.h:543-553 | frees exactly the blocks below an alternate setting, each once |
| Descriptors.ClearInterface | usbcompat.h:555-563 | frees exactly the blocks below an interface, each once |
| Descriptors.ClearConfig | usbcompat.h:565-575 | frees exactly the blocks the copy allocated, each once, and nothing for a cleared slot |
| Descriptors.ClearDevice | usbcompat.h:577-582 | frees the trees of the configurations copied so far |
| Descriptors.CopyConfigs | usbcompat.h:721-736 | copies all configurations or those before the first error; libusb has its own back |
| Descriptors.FirstErrorIs | usbcompat.h:694-736 | there is no error exactly if libusb gives the descriptor and every configuration; else it is that of the descriptor or of the first configuration not given |
| Descriptors.InitializeDevice | usbcompat.h:694-745 | 0 exactly if libusb reports no error, then with exact copies and one more reference; after an error the ledger is what it was |
| Descriptors.FreeDevice | usbcompat.h:747-753 | frees everything the initialisation allocated, the device itself, and gives the reference back |
| Descriptors.AddDevice | usbcompat.h:813-826 | an entry is allocated and initialised, or freed again if libusb reports an error, and then nothing is left of it |
| Descriptors.AddThenRemove | usbcompat.h:747-826 | adding a device and removing it returns the ledger, the references and the configurations lent to what they were, whatever libusb answers |
| DeviceHeap.Remove | usbcompat.h:747-753 | freeing one device takes exactly its blocks and its reference off the ledger of all of them |
| DeviceHeap.Admit | usbcompat.h:813-826 | initialising one adds exactly its blocks and one reference, or frees the entry |
| DeviceHeap.CancelHeld | usbcompat.h:783-811 | the first walk frees the entries found again and the devices that are gone, and nothing else |
| DeviceHeap.AdmitHeld | usbcompat.h:813-832 | the second walk takes in or frees each new entry |
| DeviceHeap.FindEntries | usbcompat.h:496-525 | one allocated entry for each device listed, and nothing else is touched |
| DeviceHeap.ScanBus | usbcompat.h:775-833 | after the scan of one bus exactly the blocks of the devices on its list, and of those elsewhere, are allocated, and exactly their references are held |
| DeviceHeap.ChangesCount | usbcompat.h:783-832 | what the scan of one bus counts is the entries gone plus the entries come |
| DeviceHeap.SumSplits | usbcompat.h:755-836 | the total over the busses adds up part by part |
| DeviceHeap.UsbFindDevices | usbcompat.h:755-836 | the same over all busses, whatever libusb lists and whatever of it initialises |
| DeviceHeap.NothingListedNothingHeld | usbcompat.h:755-836 | once no list has a device any more, nothing of any scan is left allocated or referenced |
| ScanViews.HeapView | usbcompat.h:783-832 | by number, the heap's scan leaves the new devices that initialise, in libusb's order, then the known ones still listed |
| ScanViews.RegistryView | usbcompat.h:783-832 | so does the registry's scan |
| ScanViews.ViewsAgree | usbcompat.h:755-836 | from the same numbers and one enumeration both leave the same numbers in the same order, and count the same changes |
| Link.CompatErr | usbcompat.h:297-335 | a failure is never reported as zero or a count |
| Link.Device.Transfer | usbcompat.h:878-938 | one transfer: what the host is told, what arrives, what the device makes of it |
| Link.StoreSplits | UsbRomDrv.cpp:220-227 | consecutive stores are one store |
| Link.StoreAt | AmlLibusb.cpp:84-87 | byte by byte, a store changes its own range and nothing else |
| Link.LoadAfterStore | AmlLibusb.cpp:519-537 | what was stored is what is loaded |
| Link.StopsAtFailure | AmlLibusb.cpp:519-548 | of a plan of control transfers the host makes all up to the first negative code, and reports a failure exactly if there is one |
| ControlMem.HalvesOfAddress | UsbRomDrv.cpp:132-146 | storing an address little-endian and loading two halves is shifting and masking, for every address |
| ControlMem.IoctlWriteMem | AmlLibusb.cpp:72-101 | the request made of the four address bytes and at most 64 data bytes; a length of 3 wraps and sends 64 |
| ControlMem.CtrlWrite | AmlLibusb.cpp:511-549 | the write plan's transfers up to the first that fails, and nothing else; 0 exactly if none fails; the device is what that run makes of it |
| ControlMem.WriteMemCtr | UsbRomDrv.cpp:338-359 | from equal starts, the same transfers and the same device as CtrlWrite, whatever fails |
| ControlMem.WrittenBytes | AmlLibusb.cpp:519-537 | after any part of a write, each address has the byte meant for it if that byte got through, and else what it had |
| ControlMem.ControlWriteFrames | AmlLibusb.cpp:519-537 | no run of a write changes a byte outside its range |
| ControlMem.FlatCopyIffNoneShort | AmlLibusb.cpp:511-549 | a run without failures leaves the flat copy, for every memory, if and only if none of its own transfers came up short |
| ControlMem.ShortRunSucceeds | AmlLibusb.cpp:529-537 | a run taken for a success that copies nothing exists for any data |
| ControlMem.AmlUsbCtrlWr | UsbRomDrv.cpp:754-766 | one write request for the address in front of the data, of which at most the first 64 bytes go out; a buffer of at most two bytes is refused |
| ControlMem.PlansInNumbers | AmlLibusb.cpp:519-537 | as many requests as there are 64-byte pieces, number k for the address 64 k further on, in two halves, and for that piece |
| ControlMem.CtrlRead | AmlLibusb.cpp:511-549 | the read plan's transfers up to the first that fails; each has put what arrived in its place; the device is unchanged |
| ControlMem.ReadMemCtr | UsbRomDrv.cpp:313-335 | the same transfers and the same buffer as CtrlRead; the size reported is all, or what lies before the transfer that failed |
| ControlMem.LandedBytes | AmlLibusb.cpp:519-537 | after any part of a read, each byte of the buffer is device memory if it got through, and else what it was |
| ControlMem.ExactReadIffNoneShort | AmlLibusb.cpp:511-549 | a run without failures yields device memory, for every memory and buffer, if and only if none of its transfers came up short |
| ControlMem.ControlRoundTrip | AmlLibusb.cpp:519-548 | writing and reading back is the identity if and only if no transfer of either came up short |
| ControlMem.ShortControlWriteLosesData | AmlLibusb.cpp:529-537 | a write taken for a success stores its chunk if and only if all of it moved |
| LargeMem.CommandBlockParses | UsbRomDrv.cpp:42-56 | what the handler reads from the command block is what was put in |
| LargeMem.IoctlDoLargeMem | AmlLibusb.cpp:148-176 | the request made of a command block, with or without a block size; a shorter block is refused |
| LargeMem.RWLargeMemCMD | UsbRomDrv.cpp:42-56 | one header request with the given fields |
| LargeMem.CallIsDetermined | UsbRomDrv.cpp:190-234 | the replies decide how many headers and bulk transfers a call makes |
| LargeMem.ParsedInNumbers | AmlLibusb.cpp:148-176 | wValue is 4096 unless the block gives a size up to that, and the first 16 bytes are the data |
| LargeMem.CallInNumbers | UsbRomDrv.cpp:190-205 | at most four headers, each after the one before was refused, and bulk transfers only after one was accepted |
| LargeMem.GivesUpOnlyIf | UsbRomDrv.cpp:194-234 | a call that is not whole ended with four refused headers, a bulk transfer that failed, or six in a row that were empty |
| LargeMem.WriteHeaderInNumbers | UsbRomDrv.cpp:193-205 | the four words of a write header are the address, the size but at most 64 KiB, the checksum and the sequence number; wIndex blocks of wValue bytes just hold the data |
| LargeMem.ReadHeaderInNumbers | UsbRomDrv.cpp:266-283 | those of a read header are the address, the size, zero and the sequence number |
| LargeMem.DeafCall | UsbRomDrv.cpp:190-234 | a call taken for a success without a header heard exists for any size of one transfer |
| LargeMem.FillMore | UsbRomDrv.cpp:212-229 | one bulk write extends what is stored, as far as the header announced |
| LargeMem.BulkWritesRun | UsbRomDrv.cpp:212-229 | bulk writes that each resume where the last one ended store one prefix of the data |
| LargeMem.WriteEffect | UsbRomDrv.cpp:172-234 | a write call stores exactly the bytes that reached the device if it heard a header, and changes nothing if it heard none |
| LargeMem.WriteStoresIffHeard | UsbRomDrv.cpp:172-234 | a call told that all bytes moved leaves the flat copy if and only if a header was heard and could announce all of them |
| LargeMem.BulkReadsRun | UsbRomDrv.cpp:284-303 | bulk reads that each resume where the last one ended bring one stretch of device memory |
| LargeMem.ReadEffect | UsbRomDrv.cpp:238-309 | a read call never changes memory; if a header was heard, what arrives is memory from the address on |
| LargeMem.ReadLoadsIffHeard | UsbRomDrv.cpp:238-309 | a call told that all bytes moved yields device memory if and only if a header was heard |
| LargeMem.Driver.WriteLargeMem | UsbRomDrv.cpp:172-234 | at most 4 headers, all but the last refused, then bulk writes for as long as bytes are left, none failed and at most five in a row were empty; 0 exactly if all bytes moved; the sequence number counts the bulk writes |
| LargeMem.Driver.ReadLargeMem | UsbRomDrv.cpp:238-309 | the same for reading; the buffer holds what arrived, up to the returned size; 0 exactly if that is all |
| LargeMem.OneHeaderCarries64K | UsbRomDrv.cpp:190-212 | what one header announces is all of the data if and only if that is at most 0x10000 bytes |
| LargeMem.WriteHeaderCountsBlocks | AmlLibusb.cpp:153-166 | a write header's wIndex is the least number of wValue-sized blocks |
| LargeMem.ReadHeaderCountsBlocks | UsbRomDrv.cpp:273-278 | a read header's count is the least one if and only if at most 0xFFFF000 bytes are asked for |
| LargeMem.AnnouncedBlocksAreSent | UsbRomDrv.cpp:190-234 | with nothing short, exactly the announced number of bulk writes, each of the announced length but possibly the last |
| UpdateWrite.NextPiece | update.cpp:926-935 | reading the file goes on exactly as long as whole pieces are left in it |
| UpdateWrite.WriteByControl | update.cpp:943-946 | a cwr piece is the next transfer of ControlMem's plan |
| UpdateWrite.WriteByBulk | update.cpp:947-950 | a write piece is one large-memory call for the next chunk, whole exactly on 0 |
| UpdateWrite.WriteIsDetermined | update.cpp:925-961 | the replies decide all the calls of a write |
| UpdateWrite.ChunkBytes | update.cpp:925-961 | after any run of calls, each address has its byte of the file if the device heard that byte's chunk announced and that much of the chunk reached it, and else what it had |
| UpdateWrite.HeardWrites | update.cpp:925-961 | if every call was heard, memory has one prefix of the file, the part of a failed last call included |
| UpdateWrite.WriteCopiesIffHeard | update.cpp:925-961 | whole calls for all chunks leave the flat copy if and only if the device heard a header of each |
| UpdateWrite.UnheardWriteSucceeds | update.cpp:925-961 | a write that is a success though nothing was heard exists for any data of at most 4096 bytes |
| UpdateWrite.HeadersInNumbers | UsbRomDrv.cpp:193-210 | every header in the log of a write is that of one of its 64 KiB chunks: the place in memory, the length, the complemented sum of RFC 1071 over exactly that chunk, and as sequence number the count of bulk writes in the log before it |
| UpdateWrite.WritePieces | update.cpp:925-961 | the loop, for a given number of bytes: one transfer or call for each piece that can be read, up to the first that is refused |
| UpdateWrite.WriteCommand | update.cpp:916-964 | with size 0 the rest of the file is what is written, else size bytes of it; 0 exactly if that could be read and nothing was refused, and then memory is the flat copy file[skip, skip + n) at addr unless something came up short; a size beyond the file fails after the whole pieces that are left; -735 only after a reply that is a failure, four refused headers, or six empty transfers; the whole log and the sequence number for every run |
| UpdateWrite.CommandCopiesIffGotThrough | update.cpp:916-964 | a successful command leaves the flat copy, for every memory, if and only if nothing came up short |
| UpdateWrite.CopiedBytes | update.cpp:926-961 | memory [addr, addr + n) holds file[skip, skip + n) and every other byte is unchanged |
| UpdateRead.PieceCount | update.cpp:852-860 | the number of pieces of a dump and of a read, for every size |
| UpdateRead.PiecesInNumbers | update.cpp:852-860 | where each piece starts and how long it is: for a dump 64 KiB at a time, then 4 KiB, then 512 bytes, for a read 512 bytes, and last what is left |
| UpdateRead.TilesPartition | update.cpp:852-897 | the pieces cover each address of the range exactly once, and no other |
| UpdateRead.AcceptedHeadersTile | update.cpp:852-897 | the accepted headers in the log ask for the pieces in order, one each |
| UpdateRead.HeadersInNumbers | UsbRomDrv.cpp:266-283 | every header in the log of a read is that of one of the pieces: its place, its size, zero, and a sequence number that counts the calls |
| UpdateRead.ReadIsDetermined | update.cpp:852-897 | the replies decide all the calls of a read |
| UpdateRead.ReadsAreExactIffHeard | update.cpp:852-897 | whole pieces are device memory, for every memory, if and only if the device heard a header of each |
| UpdateRead.UnheardReadSucceeds | update.cpp:852-897 | a read that is a success though nothing was heard exists for any size of at most 512 bytes |
| UpdateRead.ReadPiece | update.cpp:862-895 | one call for the next piece, whole exactly on 0, and then the output goes on with it |
| UpdateRead.ReadCommand | update.cpp:852-897 | the log is one call for each piece up to the first that fails, and ends in a failure if one does; its accepted headers tile the range, all of it on success; the output is what the whole pieces brought, which is device memory if each was heard |
| Bl2.Csw | AmlLibusb.cpp:616-650 | OKAY or FAIL and twelve zeros are sent; a status counts only if it is whole and begins with OKAY; the code for each other reply |
| Bl2.SendChunk | AmlLibusb.cpp:815-846 | CMD4, data, status of one chunk, up to the first failure, with its code |
| Bl2.AddChunk | AmlLibusb.cpp:848-850 | adding a chunk's checksum gives the checksum of the image so far |
| Bl2.SendImage | AmlLibusb.cpp:812-853 | the image's exchanges up to the first failure; all of them and the checksum of the whole image on success |
| Bl2.Pack | AmlLibusb.cpp:864-867 | the bytes of AMLS, the sequence number, the checksum and zero are laid over the front of the buffer as four words, the rest stays |
| Bl2.Close | AmlLibusb.cpp:855-880 | place, packet and status, up to the first failure |
| Bl2.SecureDownload | AmlLibusb.cpp:806-881 | a prefix of the plan, all of it exactly on 0; nothing after a refusal; the data sent is the bytes of the file; on 0 the log ends with the CMD4 for the place of the image, a 512-byte packet of AMLS, the sequence number, the checksum of exactly the bytes sent or 0, and zero, and the request for a status |
| Bl2.ChunksTile | AmlLibusb.cpp:814-853 | the chunks concatenate to the image |
| Bl2.PlanSendsImage | AmlLibusb.cpp:814-868 | a completed plan sends the image and the packet, nothing else |
| Bl2.PlanChunks | AmlLibusb.cpp:814-846 | transfers 3 k to 3 k + 2 of a plan place, send and check the 64 KiB from 0x10000 k on |
| Bl2.PlanCloses | AmlLibusb.cpp:855-880 | the last three transfers of a plan, byte by byte but for the tail of the packet |
| Bl2.VerdictIs | AmlLibusb.cpp:806-881 | which code follows from how many transfers were made and whether the last was accepted |
| Bl2.PlacesFit | AmlLibusb.cpp:816-818 | the CMD4 parameters give place and length of every chunk without loss if and only if the image has at most 32 MiB |
| Bl2Boot.CmdParser | AmlLibusb.cpp:884-939 | START, the command block, and OKAY exactly if byte 17 is 1, or is 0 and bit 7 of byte 16 is clear, else FAIL; the command and the parameters read from bytes 4 to 17 |
| Bl2Boot.PlanIsLegal | AmlLibusb.cpp:814-880 | however far a download gets, it follows the protocol |
| Bl2Boot.RoundsAreLegal | AmlLibusb.cpp:972-1005 | whole rounds leave the conversation ready for the next START |
| Bl2Boot.RunIsLegal | AmlLibusb.cpp:970-1006 | no run breaks a rule of the protocol, whatever the device sends and wherever it stops |
| Bl2Boot.BlocksAreAnswered | AmlLibusb.cpp:884-939 | in every legal run the block behind a START is answered with OKAY or FAIL as its bytes 16 and 17 say, and more follows only if they ask for data |
| Bl2Boot.RoundDelivers | AmlLibusb.cpp:995-1004 | a whole round sends as many bytes of the file as bytes 8 to 11 of the block say, from the place in bytes 12 to 15 on, then a packet with bytes 4 to 7 and the checksum of what was sent, unless bit 0 of byte 16 is set |
| Bl2Boot.RoundsAreStarts | AmlLibusb.cpp:972-1005 | there are exactly as many whole rounds as STARTs that the device accepted |
| Bl2Boot.YesIsServed | AmlLibusb.cpp:972-1005 | the loop has no bound of its own: a device that always answers the same fitting 512 bytes gets at least n rounds out of every run, for each n |
| Bl2Boot.RunRound | AmlLibusb.cpp:973-1004 | one round: a prefix of the reference round for the block that arrived, whole exactly if the loop goes on; it stops only for another command, a refusal or a chunk beyond the file |
| Bl2Boot.Boot | AmlLibusb.cpp:942-1018 | whole rounds, one for each accepted START, and a prefix of one more, all legal; in the log every START is followed by the request for a block, and that by the answer its bytes 16 and 17 call for, and more follows only a request for data; 0 only after a status for a command that is no download |
| Bl2Test.TestLoop | AmlLibusb.cpp:718-762 | the ascending loop sends the same chunks and the same checksum |
| Bl2Test.TestOpening | AmlLibusb.cpp:679-713 | START, command block and OKAY, for request type 0 only |
| Bl2Test.TestDelivers | AmlLibusb.cpp:679-803 | the same for the whole round of the test, always with the checksum |
| Bl2Test.TestVerdictIs | AmlLibusb.cpp:679-785 | which code follows from how many transfers were made and whether the last was accepted |
| Bl2Test.Test | AmlLibusb.cpp:653-803 | a prefix of the test's round, all of it exactly on 0, with the code of the step that failed |
| Bl2Test.PlanIgnoresBuffer | AmlLibusb.cpp:864-868 | from 512 bytes on nothing old shows in the closing packet |
| Bl2Test.SendersAgree | AmlLibusb.cpp:721-785 | the two senders make the same transfers for all files and buffers if and only if bit 7 of the flags is clear and the offset is below 2^31 |
| Bl2Test.SendersDiffer | AmlLibusb.cpp:997-997 | for every larger offset, a file on which they differ |
| Polling.PollLoop | UsbRomDrv.cpp:613-636 | polls while the device is busy and there is time; whatever is compared afterwards is of the last reply |
| Polling.PollsAreBounded | UsbRomDrv.cpp:613-614 | at most 1440 polls for one attempt at a media chunk and 400 for a bulk command |
| Polling.GivesUpInTime | UsbRomDrv.cpp:613-636 | a device that stays busy is given up only when twelve or twenty minutes are over, counted with the half second or three seconds asleep after each poll |
| Polling.SaysIs | UsbRomDrv.cpp:615-636 | a reply is compared exactly if it did not fail, but for a time-out, and brought as many bytes as the busy answer has |
| Polling.PollingIsDetermined | UsbRomDrv.cpp:721-741 | the replies decide how often the device is polled |
| Media.IoctlWriteMedia | AmlLibusb.cpp:246-266 | the handler's own word replaces the fifth, and 32 bytes are sent |
| Media.WriteMediaCmd | UsbRomDrv.cpp:59-94 | the header with its fields in the order they arrive |
| Media.AwaitAck | UsbRomDrv.cpp:610-643 | 0 exactly for a reply of at least eleven bytes that begins with OK!!, another attempt exactly for any other such reply |
| Media.TryMedia | UsbRomDrv.cpp:586-644 | one attempt: header, data, polls, up to the first failure, with the code that follows from the last reply |
| Media.WriteMedia | UsbRomDrv.cpp:566-649 | one to three attempts with identical data; 0 exactly if the last was acknowledged |
| Media.ChunkIsBounded | UsbRomDrv.cpp:586-645 | however the device delays, a chunk takes at most three attempts of 1442 transfers each |
| MediaFile.AttemptWatched | UsbRomDrv.cpp:586-644 | an attempt breaks no rule and ends as its last reply says |
| MediaFile.AttemptsWatched | UsbRomDrv.cpp:586-645 | a chunk is delivered exactly if its last attempt was acknowledged |
| MediaFile.FileWatched | update.cpp:255-291 | the acknowledged bytes are the acknowledged chunks in order; each chunk went out under sixteen times its own number and with its own checksum; a chunk not acknowledged was tried three times or met a failure |
| MediaFile.EveryPointIsSafe | update.cpp:255-291 | after any number of transfers, no rule is broken and the acknowledged bytes are a prefix of the file |
| MediaFile.HeadersNumberChunks | UsbRomDrv.cpp:586-600 | every header in the log is that of a chunk k: the attempt, the length, 16 k modulo 2^32, which tells it from the next, and the checksum |
| MediaFile.SendMediaChunk | update.cpp:256-282 | one chunk, read whole or not sent |
| MediaFile.WriteMediaFile | update.cpp:235-302 | 0 exactly if every chunk was acknowledged, which is exactly if every byte was; else a chunk was tried three times, a transfer failed, or the file ended early |
| Mwrite.IoctlBulkCmd | AmlLibusb.cpp:299-319 | a command of 68 bytes is sent with the fixed parameters, any other refused |
| Mwrite.BulkCmd | UsbRomDrv.cpp:701-751 | 0 exactly if, in time, a reply of at least eleven bytes begins with success |
| Mwrite.TplCmd | AmlLibusb.cpp:199-217 | the command's parameters come from its own bytes 64 to 67 |
| Mwrite.ReadStatus | AmlLibusb.cpp:220-240 | a buffer of 64 bytes gives one status request with parameters from its front, and what arrived is laid over that; any other is refused |
| Mwrite.ParametersAreClean | update.cpp:482-492 | the parameters are 0 and 1 if and only if the text fits the 64 bytes sent |
| Mwrite.TextReadsBack | update.cpp:482-485 | the text is the word download, the three arguments and hexadecimal digits that read back as the file size |
| Mwrite.TplInNumbers | AmlLibusb.cpp:199-217 | the first 64 bytes of the text go out, and the parameters are 0 and 1 if that is all of it |
| Mwrite.BulkCmdsInNumbers | update.cpp:526-562 | the 64 bytes of the second status command, with what the first status left behind them, and of the verification |
| Mwrite.StatusInNumbers | update.cpp:489-512 | the status request, and when its reply begins with success |
| Mwrite.Announce | update.cpp:482-518 | command, then status, with the exit each failure leads to |
| Mwrite.Conclude | update.cpp:526-562 | the second status command, then the verification if asked for |
| Mwrite.LogInNumbers | update.cpp:482-524 | command, status and media download are the log, in this order, as far as the run came |
| Mwrite.LogEndInNumbers | update.cpp:526-562 | and behind them the second status command and the verification, each with its polls |
| Mwrite.EarlyExits | update.cpp:473-512 | which exit follows from an empty file and the first two replies |
| Mwrite.LateExits | update.cpp:514-562 | which exit follows from whether the whole file was acknowledged and how the bulk commands ended |
| Mwrite.SuccessMeansDelivered | update.cpp:565-566 | at the success message the device has acknowledged the whole file, and both bulk commands succeeded |
| Mwrite.Mwrite | update.cpp:458-575 | the exit is that of the first condition that fails, in order; the success message exactly if none does; the return code is 0 on two other exits as well |

## Left out

- Memory exhaustion: `malloc` is assumed to succeed, as the rollback of the descriptor copies
  clears some nodes twice when it does not (usbcompat.h:616, 652, 676, 732).
- Descriptors.CopyConfigs: does not model the failure of a copy, for the same reason.
- The devices of a removed bus: `usb_find_busses` frees the bus node only (usbcompat.h:475-476),
  so nothing is claimed about what stays allocated there.
- The registry of `BusRegistry.dfy` knows of a device only whether its initialisation succeeds and
  the two ids; the trees are on the lists of `DeviceHeap.dfy`, whose busses are a sequence and are
  not themselves scanned for.
- Linked list entries carry the compared number, location or devnum, as an immutable key, and a
  libusb enumeration lists each (bus, address) pair once.
- DeviceScan.UpdateScan: mass storage scanning is not modelled beyond its refusal, and nothing is
  said of what a read outside of the names brings.
- Opening and closing devices and files, argument parsing, console output and progress: a device
  or file that cannot be opened ends the commands before anything modelled here.
- Writing the dump file: a short write ends the dump loop, but the command still returns 0
  (update.cpp:885-903).
- Bl2Boot.Boot: does not model a device that keeps asking for ever. The source's loop has no bound
  (AmlLibusb.cpp:972); the model's ends because every transfer fails past the end of the script,
  which is of any length but finite. Bl2Boot.YesIsServed shows that no bound is lost by it.
- A session left half done by an earlier large-memory call: it takes or gives the bytes of a later
  call whose header was not heard, so the exact conditions start without one; the BL2 and media
  members start without one too.
- UpdateRead.ReadCommand: does not model the exit -641 (update.cpp:872-878), which cannot be taken: a
  piece is never empty, and a call that succeeds has moved all of it.
- Checksum.Checksum64K: does not model the byte read beyond the end in the three-byte tail
  (checksum.h:41), only the value of the three real bytes.
- Bl2.SecureDownload: does not model the signed overflow of sizes within 0xFFFF of 2^31
  (AmlLibusb.cpp:814); they are computed exactly.
- Bl2Boot.RunRound: does not model the exit -1177, which cannot be taken: the parser yields four
  command codes, all of them known.
- The byte order of the host: control reads pass the address as it lies in memory
  (UsbRomDrv.cpp:138), taken to be little-endian.
- A file may be shorter than the size it was found to have, but does not otherwise change, and a
  read fails only at its end.
- Device memory outside large-memory and memory requests: what the device does with BL2 and media
  data is not modelled, only what it was sent and what it acknowledged.
- `AmlUsbburn` and `AmlUsbBurnWrite`: they send a command of 88 bytes that the handler refuses
  unless it has 68 (UsbRomDrv.cpp:778-789, AmlLibusb.cpp:200).
- Reading media, passwords, chip information, serial numbers, identification, running code and
  the unimplemented stubs: single transfers without a protocol of their own.
- The code without `BUGFIX`, which no build compiles.
