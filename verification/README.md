# The flash engine of Arch R Flasher, verified

A Dafny model of the part of Arch R Flasher that must not go wrong: writing an image to a raw card and
reading it back on Linux, Windows and macOS, patching the boot partition inside the image, the progress
protocol between writer and window, and four smaller pieces around it (image cache, disk list, descriptor
hand-over, issue URL).

Check everything with `dafny verify dfyconfig.toml`.

## What is modelled

| files | what they hold |
|---|---|
| `Streams`, `Win32` | the environment as classes: image file, card, hasher, Windows handles |
| `RawWriteUnix`, `FlashWrite`, `FlashWindows`, `WritersAgree` | the three writers and their verifiers, and how they compare |
| `BootPatch`, `FatVolume`, `PatchExample`, `FdHelper`, `FlashMacos` | the boot-partition patch and the macOS flash end to end |
| `Progress`, `Reports` | the progress file: printing, polling, and what a run publishes |
| `DownloadCache`, `Disks`, `IssueUrl`, `Percent` | image cache with crashes, Linux disk list, issue URL |
| `Bytes`, `Text`, `Wrappers` | sector arithmetic, the bit mask, string operations |

The environment makes free choices. A read returns any number of bytes from one up, and none only at the
end; a Windows write takes any part of what it is offered; every call may fail at any time; the kernel may
write back any byte of its cache whenever it likes. Statements therefore hold for every schedule. Two flags
of a device are used as conditions: a `faithful` card stores what an accepted write carries, a `reliable` one
reports no error within its capacity. Nothing is assumed of a card that lacks them, so that soundness of the
verify passes is proved for cards that lie.

Each writer is a method with the loops of the source, specified by byte-wise predicates: `HoldsPrefix` (image,
padding, untouched rest) and for macOS `Flashed` (the same with both wipes). `BlockDevice.stable` is what a
power cut would leave; the Linux loop is proved to keep its synced prefix in it.

Assumptions: the image file does not change while it is flashed, and its size is a 64-bit number; a write of
the progress file is atomic (what a torn read does is stated too); SHA-256 is a function from bytes to strings,
with no property but, where stated, that it tells two given strings apart or prints 64 lower-case digits; the FAT
library is a pair of functions (read a tree from partition bytes; plan the seeks, reads and writes that turn
partition bytes into another tree) for which following a plan gives the planned tree. Percentages are integers
rounded down where the source truncates, exact reals elsewhere. Paths in the FAT tree are compared without regard
to case, as the vendored library does. Strings of `IssueUrl` are UTF-16 code units.

Faults whose effect the source hides are parameters, so that what happens is determined by them: the directory scan
that may miss the alternate configuration (`found`), the size of the working copy that may be unreadable
(`statOk`), what the temporary directory allows (`WorkingCopy`), and how each file operation of a download ends
(`Effects`).

## What the proofs say about the code

Properties the code has are in the table below. These are the places where it does less than one might expect, each
with the exact condition.

- On Linux the flash script puts `STAGE:speed_ok:0` into the progress file, which the poller shows as 56. The bar
  falls back exactly when a round catches that line and a later one a count below the 35th part of the image
  (`WhenTheBarFalls`, `SpeedLineGoesBack`); without the line it never does.
- A read that catches only the first digits of a count or of a percentage moves the bar back exactly when their
  value is below what was shown (`TornCount`, `TornPercent`).
- An image that ends before the size its metadata gave is copied as far as it goes. Linux reports success for that
  prefix, with or without verify; the card then holds the image up to the stated size if and only if the image is
  that long (`FlashWrite.Run`). Windows does the same without verify. With verify it goes by the digest of the whole
  stated size, and accepts a short image only if the digest confuses it with a longer stretch of the disk
  (`FlashWindows.WriteImage`, `ShortImageNeedsCollision`).
- If the size of the macOS working copy cannot be read, the verify pass accepts every card; what it accepts is sure
  to hold the image if and only if the size could be read (`VerifyNeedsSize`, and `FlashCore` on cards that store
  something else).
- Any failure to open the alternate configuration counts as there being none. A soysauce patch on which only that
  fails succeeds without switching; it has switched if and only if the search went through, or the switch would
  have changed nothing (`PatchBootPartition`; `PatchExample` shows that such images and drivers exist).
- The macOS working copy stays behind whenever it was created and the flash stopped before it had a descriptor,
  which includes a decompression or copy that broke off, and whenever it cannot be removed at the end (`FlashCore`
  gives the exact condition).
- A cached image is never compared with the digest the release publishes. It has that digest if and only if the
  stored one is it (`CachedIgnoresPublishedDigest`); where none can be read, the size alone decides
  (`CachedBySizeAlone`). A published digest with a capital letter passes the filter but can match no download.
- A fresh download disagrees with the digest stored beside it exactly when that could not be written
  (`OkMatchesStoredDigest`).
- A cached file found bad is handed out by the next call if and only if it could be neither removed nor replaced
  while its digest went, or gave way to one that happens to be its own (`BadFileIsTrusted`).
- A second soysauce patch replaces the backup of the original configuration by the alternate one, which makes a
  difference unless they are equal (`BackupIsLost`).
- `buildIssueUrl` loops for ever on a surrogate-free log exactly when neither the whole log nor its last code unit
  fits (`Terminates`: once the whole log is too long, the fixed parts of the report and one code unit decide). It
  throws exactly where a cut of the log falls inside a surrogate pair, or code unit 120 of the first line is the
  second half of one.
- A buffered Linux write pads nothing, so it leaves the same card as a direct one if and only if the bytes behind
  the image were zero already (`BufferedMatchesDirect`).

The comment above `write_image` and the header of that file mention a step that cleans the disk layout; the code has
none, and the model follows the code.

## Model

| member | source | states |
|---|---|---|
| Bytes.MaskRoundsUp | src-tauri/src/rawwrite_unix.rs:183 | the 64-bit mask expression of the writers is rounding up to the next multiple of the sector, for every power of two and every size that does not overflow |
| Streams.FillChunk | src-tauri/src/flashwrite.rs:226-232 | for every schedule of short reads the buffer ends up with exactly the next bytes of the image, as many as were asked for or as there are |
| Streams.StoreChunk | src-tauri/src/rawwrite_unix.rs:183-188 | one device write of the copy loop: the position stays the real-byte count until the last chunk, nothing beyond the padded image changes even if the write fails half way |
| RawWriteUnix.WriteImageToRawFd | src-tauri/src/rawwrite_unix.rs:141-202 | success leaves exactly image, zeros to the sector end, zeros in the rest of the first MB and of the last whole MB of a card of more than two, all other bytes unchanged (also in plain numbers, `Blanks`); the byte count is the image size; failure changes only bytes of these ranges; a sync failure is a warning only, without which the whole card is durable; one progress report per chunk |
| RawWriteUnix.LastMbIs | src-tauri/src/rawwrite_unix.rs:152-155 | the second wipe starts at an offset if and only if the card has more than 2 MB and its last whole MB begins there |
| RawWriteUnix.StreamImage | src-tauri/src/rawwrite_unix.rs:167-192 | the copy loop holds the image prefix after every chunk, for every schedule of short reads |
| RawWriteUnix.WipeEnds | src-tauri/src/rawwrite_unix.rs:147-162 | both wipes zero exactly their MB, the second only on a card of more than 2 MB |
| RawWriteUnix.VerifyImageOnRawFd | src-tauri/src/rawwrite_unix.rs:213-241 | Ok implies that card and image agree on the whole size, a reported mismatch that they do not; on media without I/O errors and long enough, Ok if and only if they agree |
| RawWriteUnix.CompareChunks | src-tauri/src/rawwrite_unix.rs:226-239 | the chunk loop, with one percentage per chunk |
| FlashWrite.SyncIfDue | src-tauri/src/flashwrite.rs:264-269 | afterwards the sync mark is the greatest multiple of 64 MiB not above the count, or the sync failed exactly one interval above it |
| FlashWrite.WriteLoop | src-tauri/src/flashwrite.rs:221-270 | card, hash and progress after any number of chunks; fewer than 64 MiB are ever unsynced unless a sync itself failed |
| FlashWrite.WritePhase | src-tauri/src/flashwrite.rs:207-274 | also when stopped by an error: everything below the last sync survives a power cut and at most one interval, 67108864 bytes, lies above it; on success all of it is durable before verify starts, and the card holds the image, padded if writes were direct |
| FlashWrite.VerifyDevice | src-tauri/src/flashwrite.rs:318-356 | the digest is that of exactly the first n card bytes for any schedule of short reads; a card that ends early is rejected; published percentages rise strictly and end at 100 |
| FlashWrite.VerifyPhase | src-tauri/src/flashwrite.rs:299-311 | on a reliable card accepted if and only if the digest of its first n bytes is the expected one |
| FlashWrite.WriteAndVerify | src-tauri/src/flashwrite.rs:205-311 | success with verify: card digest equals source digest, and the card equals the source if the digest tells them apart; a faithful card never mismatches; a faithful reliable card with room is always accepted; behind whatever the file held before, the progress history is ordered |
| FlashWrite.Run | src-tauri/src/flashwrite.rs:154-312 | the same from the outside, with the error for a missing image and for missing metadata leaving the card alone; success publishes exactly stage, count of each chunk, percentages up to 100 if verified, and end; after it a faithful card agrees with the image up to the size in the metadata if and only if the image is that long |
| FlashWrite.FlashScript | src-tauri/src/flash_linux.rs:309-515 | with the lines the script echoes before and behind the helper, the whole history of the progress file is in the order the poller relies on |
| FlashWindows.WriteOut | src-tauri/src/flash_windows.rs:476-498 | for any sequence of non-zero partial writes the disk gets the padded chunk once, in order, without gap or overlap, with termination by the bytes left in the chunk; zero written is an error |
| FlashWindows.WriteLoop | src-tauri/src/flash_windows.rs:447-502 | with termination by the bytes left in the image, the disk holds the prefix of the image, the hasher has seen exactly the unpadded bytes |
| FlashWindows.WritePass | src-tauri/src/flash_windows.rs:419-508 | returns the digest of exactly the source; even after an error only the padded image range has changed; its own handle is closed on every way out; if no call fails the boundary checks are lifted and the disk is locked first, and flushed last |
| FlashWindows.VerifyPass | src-tauri/src/flash_windows.rs:510-566 | reads whole chunks but hashes exactly the first n disk bytes; a disk that ends early is rejected |
| FlashWindows.LockWithBackoff | src-tauri/src/flash_windows.rs:279-291 | at most eight attempts, each refusal in the trace; it gives up exactly after the eighth; after n refusals the waits add up to 100 * (2^min(n,7) - 1) milliseconds |
| FlashWindows.LockAndDismountVolumes | src-tauri/src/flash_windows.rs:235-312 | returns distinct, open, new handles; every volume locked or dismounted is on the target disk and was so through one of them, and it is dismounted only after a lock through the same handle or eight refusals in a row; if no call fails every volume of the disk is locked, then dismounted, then loses its letter |
| FlashWindows.RescanDisk | src-tauri/src/flash_windows.rs:316-323 | rescans through a handle of its own while none of the volume handles is open, does so if no call fails, and waits 1.5 s |
| FlashWindows.WriteUnderLocks | src-tauri/src/flash_windows.rs:378-408 | every disk write and verify read happens while all collected volume handles are open |
| FlashWindows.WriteImage | src-tauri/src/flash_windows.rs:346-417 | the whole protocol: disk access only under all handles, volumes touched only through them and dismounted only once locking was tried, rescan only on success and after release, all handles opened on the way closed exactly once on every path; if no call fails all volumes of the disk are locked before the first disk access, and the disk is rescanned; success means the disk holds the image and, if verified, has its digest, and that exactly the messages of a full run were published; where no call fails, accepted if and only if verify is off or the digests agree |
| FlashWindows.ShortImageNeedsCollision | src-tauri/src/flash_windows.rs:354-406 | an image shorter than the size in its metadata has an agreeing digest only by a collision with a longer stretch of the disk |
| Win32.ClosedExactlyOnce | src-tauri/src/flash_windows.rs:174-184 | in any trace the guard type can produce, a handle is closed once if it was opened and is no longer open, else never |
| WritersAgree.RunAll | src-tauri/src/flashwrite.rs:221-270 | a run of each of the three writers for one image over equal old cards, with independent chunking, short reads and partial writes: all cards begin with the image, direct Linux and Windows cards are equal, and the exact set of bytes where the others differ; on reliable cards with room all succeed |
| WritersAgree.BufferedMatchesDirect | src-tauri/src/flashwrite.rs:246-255 | the buffered fallback leaves the card of a direct write if and only if the bytes a direct write pads were zero before |
| BootPatch.BootEntryBounds | src-tauri/src/rawwrite_unix.rs:295-310 | start and end of an accepted partition are whole sectors, fit in 64 bits, are not empty, and leave out the MBR |
| BootPatch.BootEntryReadsBack | src-tauri/src/rawwrite_unix.rs:287-310 | of a record laid down as in section 5.2.1 of the UEFI Specification exactly signature, type, start and size of the first entry decide, in this order, and they are read back as they were put in |
| BootPatch.EverySectorIsMbr | src-tauri/src/rawwrite_unix.rs:287-310 | every sector is laid down in that way, so that the above covers all inputs |
| BootPatch.StepSpelled | src-tauri/src/rawwrite_unix.rs:312-315 | seeks on the slice from start, place and end stay inside or fail, reads move on by what there is |
| BootPatch.WriteSpelled | src-tauri/src/rawwrite_unix.rs:312-315 | a write moves on by what fits, which is then in the file |
| BootPatch.StepsConfined | src-tauri/src/rawwrite_unix.rs:312-315 | for any sequence of reads, writes and seeks by the FAT driver, image bytes outside the partition never change |
| BootPatch.StepsAreLocal | src-tauri/src/rawwrite_unix.rs:312-315 | through the slice the driver does to the image exactly what it would do to a file holding only the partition |
| BootPatch.PatchedFiles | src-tauri/src/rawwrite_unix.rs:316-377 | by name: the directory overlays is there, overlay and variant are set, and configuration and backup exactly when the variant is soysauce and a non-empty alternate was found; every other path reads as before |
| BootPatch.PatchTwice | src-tauri/src/rawwrite_unix.rs:316-377 | a second patch with the same inputs succeeds on the same terms and changes at most the backup, a third nothing |
| BootPatch.BackupIsLost | src-tauri/src/rawwrite_unix.rs:353-375 | after a second soysauce patch the backup is the original configuration if and only if that equals the alternate |
| FatVolume.StreamSlice.Run | src-tauri/src/rawwrite_unix.rs:312-315 | a session of operations on the open slice does what the specification says and stays in the window |
| FatVolume.EditTree | src-tauri/src/rawwrite_unix.rs:316-377 | the sequence of edits has the effect of one update of the tree, and can only succeed on trees where every step can; there, if no call fails but perhaps the search for the alternate configuration, and the driver has room for each step, it does succeed; any failure leaves the image changed inside the window only |
| FatVolume.SwitchConf | src-tauri/src/rawwrite_unix.rs:340-376 | with an alternate configuration that is absent, empty or cannot be opened the tree stays and that is a success; otherwise backup and configuration are replaced, in that order |
| FatVolume.PatchBootPartition | src-tauri/src/rawwrite_unix.rs:270-381 | success: the boot partition reads as the patched tree and all bytes outside it are unchanged; for a variant other than soysauce the configuration stays, for soysauce it becomes the alternate exactly if that was found and is not empty, and otherwise stays; on a switchable image it is the switched one if and only if the search for the alternate went through or switching changes nothing; failure: only bytes inside the partition can have changed; if no other call fails and there is room, success if and only if nothing stands in the way, and on a switchable image whose search fails that means success with the old configuration |
| FatVolume.WhatIsPatchable | src-tauri/src/rawwrite_unix.rs:316-377 | what can stand in the way, by name: a file for the directory overlays, directories for overlay and variant, and for soysauce no directory extlinux, no configuration to back up, or a directory for the backup |
| PatchExample.PatchCanSucceed | src-tauri/src/rawwrite_unix.rs:270-381 | for every patchable tree there are a sound driver with room and an image that holds the tree, switchable if the tree is, so that the conditions for success are met |
| PatchExample.SwitchableTree | src-tauri/src/rawwrite_unix.rs:340-376 | for any configuration and any non-empty alternate there is a tree that can be patched and switched, where switching changes something |
| FdHelper.RecvFd | src-tauri/src/rawwrite_unix.rs:96-133 | the descriptor returned is the first to arrive before failure or end of stream, over interruptions and plain data; if one arrives it is returned |
| FdHelper.ReceiveFdFromHelper | src-tauri/src/rawwrite_unix.rs:42-93 | a descriptor is returned if and only if one arrived, whatever the exit code; refusal carries a non-zero code, "no descriptor" means exit code 0 |
| FlashMacos.WriteAndVerify | src-tauri/src/flash_macos.rs:155-193 | write and verify over one descriptor: on success the card is the flashed card, and verified means equal to the image; a faithful reliable card with room is accepted |
| FlashMacos.FlashCore | src-tauri/src/flash_macos.rs:45-203 | end to end: if it succeeds on a faithful card, or with verify and a readable size on any card, the card carries the patched image; no failure before the descriptor touches the card; where no I/O fails behind it, accepted if and only if verify is off or passes; a patchable image, a descriptor and a good card with room lead to success; exactly when the working copy stays behind |
| FlashMacos.Materialize | src-tauri/src/flash.rs:179-210 | the working copy becomes the whole image if and only if the source opens and ends properly and the file can be created and has room; a copy that breaks off stays |
| FlashMacos.VerifyNeedsSize | src-tauri/src/flash_macos.rs:101-172 | what the verify pass accepts is sure to be the image if and only if the size was readable (or the image is empty); without it every card passes |
| FlashMacos.CardShows | src-tauri/src/flash_macos.rs:67-203 | reading the card: its boot partition is where the user's image had it and holds the new overlay and variant, the switched or else the old configuration and backup, and every other path as before; every image byte outside it is the user's |
| Progress.PollReadsBack | src-tauri/src/flash.rs:123-171 | every byte count of 64 bits, every percent and every stage is recovered exactly from its text, with or without a line feed, and no message is read as another |
| Progress.PrintIsInjective | src-tauri/src/flash_windows.rs:501 | no two messages share a text |
| Progress.WhatIsShown | src-tauri/src/flash.rs:123-171 | counts take the bar from 55 to 90 in proportion to the image, with the bytes, and show nothing if its size is unknown; percentages take it from 90 to 98 in proportion; the end shows 98 |
| Progress.PollReadsOldStages | src-tauri/src/flash.rs:128-165 | the stages and the failure line of older scripts are read as what the source shows for them |
| Progress.PollFlashProgress | src-tauri/src/flash.rs:121-173 | the polling loop sends, in order, what each successful read says and nothing for a failed one |
| Progress.WhenTheBarFalls | src-tauri/src/flash.rs:121-173 | for every ordered history and every in-order sampling with misses, repeats and failed reads: the bar falls if and only if a round catches the speed line and a later one a count below the 35th part of the image; it stays in 55..90 while writing and 90..98 while verifying, and shows nothing that was not written |
| Progress.WithoutSpeedLineNeverFalls | src-tauri/src/flash.rs:121-173 | where no speed line is sampled, as on Windows and macOS, the bar never falls |
| Progress.SpeedLineGoesBack | src-tauri/src/flash_linux.rs:413 | the speed line followed by a count falls if and only if the count is below the 35th part of the image |
| Progress.TornCount | src-tauri/src/flash.rs:166-171 | a read that catches any first digits of a count moves the bar back if and only if there are some and their value is below the count last shown and below the image size |
| Progress.TornPercent | src-tauri/src/flash.rs:123-127 | the same for the digits of a verify percentage, where none count as zero |
| Reports.ReportsAscend | src-tauri/src/flashwrite.rs:259-262 | a pass publishes one count per chunk, strictly growing, chunk-aligned but for the last, which is the total |
| Reports.WholePassPercents | src-tauri/src/rawwrite_unix.rs:237-238 | the percentages of a whole comparison never fall and end at 100 |
| Reports.PercentIsFloor | src-tauri/src/flashwrite.rs:345 | a percentage is the greatest whole number of hundredths reached |
| Reports.PublishPercent | src-tauri/src/flashwrite.rs:345-349 | a percentage is published only when it differs from the last one, so that published percentages rise strictly |
| Reports.RunIsOrdered | src-tauri/src/flashwrite.rs:205-310 | the history of any run, complete or cut short, behind any zero, speed and stage lines of its caller, is in the order the poller relies on |
| DownloadCache.VerifySha256 | src-tauri/src/github.rs:117-136 | true if and only if no read fails and the digest of the whole file is the expected one |
| DownloadCache.TryCache | src-tauri/src/github.rs:185-212 | takes the cached file, clears it away or passes it over exactly as specified for each way its steps can end, unreadable metadata and read errors included |
| DownloadCache.ReceiveBody | src-tauri/src/github.rs:235-271 | the partial file is the concatenation of the chunks up to the one that failed, or the whole body with its digest; final file and digest file are not touched |
| DownloadCache.DownloadImage | src-tauri/src/github.rs:174-294 | one call: outcome and all three files are those the specification function gives for the way each step ends, done, refused or cut off with any part of it done |
| DownloadCache.FinalAfterCall | src-tauri/src/github.rs:185-293 | the final file is the whole of a proper download if one was moved into place, else the old one, or gone if there was a digest to check it against; a cached result comes if and only if the file has the advertised size and, where a digest can be read, that is its own |
| DownloadCache.PartAfterCall | src-tauri/src/github.rs:235-271 | the partial file is a beginning of the body, or what it was, or gone |
| DownloadCache.CalmCall | src-tauri/src/github.rs:174-294 | outcome and all three files of a call without faults, for each of the five ways it can go |
| DownloadCache.NeverPartial | src-tauri/src/github.rs:235-293 | after any run of calls, each crashed anywhere or not, the final file is absent, as before the run, or the whole body of a download that matched the digest published for it |
| DownloadCache.OkMatchesStoredDigest | src-tauri/src/github.rs:185-293 | a cached result always agrees with the stored digest; a fresh one disagrees if and only if its digest was refused and an older one was left that is another, or a part of the new one; with the digest stored it is that of the file |
| DownloadCache.StalePairIsDetected | src-tauri/src/github.rs:190-206 | a file next to a digest that is not its own is never handed out, and without faults it is downloaded again |
| DownloadCache.BadFileIsTrusted | src-tauri/src/github.rs:201-289 | a bad file is handed out by the next call if and only if it was neither removed nor replaced while its digest went, or gave way to one that is its own; each of these spelled out by how the steps of the call and the response ended |
| DownloadCache.BadFileWithoutDigestIsTrusted | src-tauri/src/github.rs:204-210 | such a run: removal of the file refused, of the digest done, server out of reach |
| DownloadCache.PinnedRelease | src-tauri/src/github.rs:185-293 | with one published digest and an empty cache at first, every result of every run has that digest |
| DownloadCache.CachedIgnoresPublishedDigest | src-tauri/src/github.rs:188-206 | a cached result checked against a stored digest has the published one if and only if the stored one is it |
| DownloadCache.CachedBySizeAlone | src-tauri/src/github.rs:188-210 | where no digest can be read a file is handed out if and only if it has the advertised size |
| DownloadCache.CachedCanDiffer | src-tauri/src/github.rs:188-210 | any file of the advertised size, with its own digest stored or none to be read, is handed out though its digest is not the published one |
| DownloadCache.CapitalsNeverMatch | src-tauri/src/github.rs:91-105 | a published digest with a capital letter is accepted by the filter and matches no download |
| Disks.StripUndoesNaming | src-tauri/src/flash_linux.rs:458-464 | stripping the name the flash script builds gives the disk back if and only if the disk has the `p` form or its name does not end in a digit |
| Disks.StripOfMarked | src-tauri/src/disk.rs:129-138 | on a disk with a `p` before its numbers, that and the digits behind it are stripped |
| Disks.OnlyNumbersStripped | src-tauri/src/disk.rs:129-138 | and nothing if the name does not end in a `p` and digits |
| Disks.StripOfPlain | src-tauri/src/disk.rs:139-141 | on any other disk all digits at the end are stripped |
| Disks.NamesInUse | src-tauri/src/flash_linux.rs:458-464 | the partition names of cards, NVMe disks and lettered disks, spelled out, lead back to the disk |
| Disks.WholeCardStays | src-tauri/src/disk.rs:129-142 | an mmcblk name without partition does not look like a partition name, and so is its own parent |
| Disks.WholeDiskNeverOffered | src-tauri/src/disk.rs:22-142 | no disk mounted as a whole at /, /home or /boot is ever listed |
| Disks.GetSystemDiskNames | src-tauri/src/disk.rs:96-125 | the result is exactly the set of the disks whose device, or partition, some line mounts at /, /home or /boot, each once |
| Disks.MountLineIsRead | src-tauri/src/disk.rs:102-121 | a line of the text that mounts a device at /, /home or /boot is found wherever it stands in the table |
| Text.LinesReadBack | src-tauri/src/disk.rs:102 | lines with a line feed behind each are read back |
| Text.WordsReadBack | src-tauri/src/disk.rs:103 | words with single spaces between them are read back |
| Text.TrimIs | src-tauri/src/disk.rs:48-51 | trimming takes all whitespace from both ends and nothing else |
| Disks.OfferedSpelled | src-tauri/src/disk.rs:36-88 | for the texts the kernel gives for a removable disk: listed if and only if its name begins with sd or mmcblk, it is not protected, and 512 times its sectors, modulo 2^64, is more than 0 and at most 128000000000; and what is shown for it |
| Disks.ListRemovableDisks | src-tauri/src/disk.rs:22-91 | the list is what the checks make of the entries, in their order, and empty when the directory cannot be read; whatever the text of the mounts table, no disk in it has a partition, or is as a whole, in a line that mounts it at /, /home or /boot |
| Disks.ListedIsOffered | src-tauri/src/disk.rs:36-88 | a disk is listed if and only if some entry passes all checks and looks like it |
| Disks.SystemDiskNeverOffered | src-tauri/src/disk.rs:22-142 | for every mounts text and listing, no disk with any partition, built by the naming rule, mounted at /, /home or /boot is ever listed |
| Percent.EncodeGrowth | src/main.js:516-517 | encoding never shrinks a string and grows it at most ninefold |
| Percent.EncodeJoins | src/main.js:516-517 | encoding distributes over concatenation behind a well-formed string |
| Percent.EncodeReadsBack | src/main.js:516-517 | percent escapes and UTF-8 decoded give back every well-formed string |
| Percent.EncodedIsHarmless | src/main.js:516-517 | an encoded string has letters, digits, marks and escapes only, so no `&` and no `?` |
| IssueUrl.UrlShape | src/main.js:510-517 | when there is a URL, and how long it is, in terms of the log alone |
| IssueUrl.UrlReadsBack | src/main.js:516-517 | the URL read by its parts is the page, the title and the body |
| IssueUrl.CutFromIs | src/main.js:525 | the search for a line break begins behind at least 200 code units and where what is left would come to at most 5000 in the URL, and no earlier |
| IssueUrl.OneLineIsHalved | src/main.js:526-528 | without a line break from there on, but for one at the very end, the log is halved |
| IssueUrl.BuildIssueUrl | src/main.js:506-531 | ends for every log that can be made to fit; the URL has at most 6000 code units, and split at `?` and `&` and decoded it has the title with error, version and system, and the text that repeats them and has the kept log between the fences; that is a non-empty tail, truncation is announced exactly when it is a proper one, and there is no URL exactly when a fixed part or the kept tail cannot be encoded |
| IssueUrl.TrimToFit | src/main.js:519-529 | the trimming loop ends with the first state of the iterated round (`After`) whose URL fits |
| IssueUrl.RoundSpelled | src/main.js:522-529 | a round trims exactly when the URL has more than 6000 code units |
| IssueUrl.MoreToTrim | src/main.js:522-529 | as long as the URL is too long more than one code unit of the log is left, so that halving shortens it |
| IssueUrl.CutBehindLineBreak | src/main.js:525-528 | with a line break in the estimated range the tail begins behind the first such break, so that whole lines are kept |
| IssueUrl.BoundedVersionTerminates | src/main.js:506-531 | with a version of at most 120 code units the loop ends for every message and log |
| IssueUrl.OtherwiseNeverEnds | src/main.js:522-529 | on surrogate-free logs the condition is exact: where it fails the guard of the loop holds for ever |
| IssueUrl.ThrowsWhenPairIsCut | src/main.js:525-528 | for a well-formed log there is no URL if and only if a cut fell inside a surrogate pair |
| IssueUrl.LogCanThrow | src/main.js:525-528 | there are well-formed logs of every large even number of pairs on which the first cut throws |
| IssueUrl.FirstLineCut | src/main.js:506-517 | for a well-formed first line and a plain version there is a URL if and only if the log is well-formed and code unit 120 of the line is not the second half of a pair |
| IssueUrl.FirstLineCanThrow | src/main.js:509 | a letter and sixty pairs or more are such a first line |
| IssueUrl.PlainInputsEncode | src/main.js:506-531 | without surrogates in the inputs there is always a URL |

## Left out

- System calls themselves: O_DIRECT, posix_fadvise, memory layout of aligned buffers, CreateFileW and DeviceIoControl; only their contracts on handles, positions and bytes are kept.
- The internals of SHA-256, of the xz and gzip decoders and of the FAT library; that the library follows a plan which yields the tree it was asked for is an assumption, and its own buffering between calls is not modelled.
- The flash script beyond its partition naming and its progress lines (zero, speed, stage, done), and the PowerShell configuration script.
- The cache of decompressed images in src-tauri/src/main.rs, which is keyed by modification time only.
- Percentages the callers emit themselves before and after the poller; the order of the bar is proved for the poller alone.
- Progress.ParsePercent: reads decimal digits only, where the source accepts any floating-point syntax; writers print digits.
- Progress.WritingPercent: exact reals, where the source rounds to floating point.
- FlashMacos.FlashCore: device check, disk space check and opening the source are one condition (`opens`); a file copy arrives in chunks like a decompression; diskutil calls have no effect on the card.
- FlashWindows.WriteImage: the number in the device path is a parameter, and the seek at the start of the verify read is implied by the new handle.
- IssueUrl.OtherwiseNeverEnds: stated for logs without surrogates; with surrogates a round may throw instead of going on.
- Disks.SystemDiskNeverOffered: covers partitions named directly in the mounts table, not device-mapper names; other mount points are not protected by the source.
- Error texts and offsets in messages, the matching of error output in src-tauri/src/flash_linux.rs, translateError, display names and sizes of disks.
- Disk listing on macOS and Windows, release lookup, updater, wizard, translations, diagnostic log.
