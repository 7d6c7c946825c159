# A model of the Android boot image writer and the build around it

The model covers two scripts.

`mkbootimg.py` writes boot images (header versions 0 to 4) and vendor boot images (versions 3 and 4). Its header is
written before its payload, so sizes, offsets and page counts in the header have to agree with bytes that other
functions write later. The repository has no reader. The model adds one as a specification: it follows the packed
structs that the Android `bootimg.h` declares, starts from nothing but the bytes of the image, and locates every
section through header members. The main results say that the reader recovers exactly what the command line gave,
for all file contents and sizes, and say exactly when the tool raises instead.

`build_uefi.py` removes four patches from a submodule, applies them again, compiles, and feeds the result to
`mkbootimg.py`. The model is a transition system over builds that can be stopped at any point, and a method that
assembles the kernel and runs the tool.

## Layout

- `Bytes`, `Struct`, `Paging`, `Sections`: bit operators, `struct.pack`, page padding, images made of sections.
- `ImageId`, `BootImage`, `BootRoundTrip`: the hash input, the boot image, its reader and the round trips.
- `VendorTable`, `VendorImage`, `VendorRoundTrip`: the vendor ramdisk table, the vendor image, its reader.
- `Files`, `Builder`, `Mkbootimg`: output and input files as objects with a position, the table builder as an object,
  and the writing methods up to `main`.
- `OsVersion`, `CommandLine`, `RamdiskArgs`, `Tool`: option values, argument groups, and the tool from parsing to bytes.
- `Layout`, `BootLayout`, `VendorLayout`: the absolute positions of `bootimg.h` at which the readers find everything.
- `Invocations`, `EndToEnd`: what a command line means in plain terms, and the tool end to end in these terms.
- `PatchProtocol`, `BuildImage`: the patch protocol and the image built from a device configuration.

`dafny verify dfyconfig.toml` checks the whole project.

## Findings

- A version 4 image whose signing tool succeeds but writes no bytes has a header that promises a 4096-byte signature
  and no such section. This is the only unreadable case (`Mkbootimg.UnreadableIffEmptySignature`, with an input in
  `Mkbootimg.EmptySignatureIsUnreadable`).
- `VendorRamdiskTableBuilder.add_entry` does not bound names, and two long names it accepts can share a 32-byte field
  (`VendorTable.LongNamesCollide`, with the exact condition in `VendorTable.SharedFieldIff`). Names from the command
  line are bounded, and there the names stay distinct (`RamdiskArgs.NamesOnDisk`).
- A refused `add_entry` records its name when the name is fine and the board id or the path is not
  (`VendorTable.RefusedCallRecordsIff`); a valid request with that name is refused from then on
  (`VendorTable.AcceptableAfter`, with an input in `VendorTable.RefusedNameIsTaken`).
- Not every configured number reaches the image (`BuildImage.KeysReachImageIff` is exact, key by key). A zero is not
  forwarded by `build_uefi.py`, so the tool's default is used, which is not zero for the base address and the offsets
  (`BuildImage.ZeroOffsetIsLost`). `second_offset` never reaches the image, because no second stage is passed
  (`BuildImage.SecondOffsetIsLost`, with the values of `lancelot.toml`). `dtb` and `dtb_offset` reach version 2 only,
  and no address reaches a version 3 or 4 image.
- The hash input is uniquely decodable even across header versions (`ImageId.PreimageDeterminesComponents`).

## Assumptions

- A file's reported size is the length of its contents, and files do not change while the tool runs.
- Every option that names a file gets its own handle. The standard-input form `-` is not used.
- The host is little-endian.
- `git apply` is all or nothing, the patch touches a file only if the file has the content the patch expects, and the
  four patches touch different files.
- Preparing the environment leaves the patch files alone; updating the repository may replace them.

## Model

| member | source | states |
|---|---|---|
| EndToEnd.RunTool | Resources/Scripts/mkbootimg.py:650-670 | The whole tool in terms of what was typed alone: it raises nothing exactly when the command line fits, in plain numbers; then a reader of each image finds the files, the numbers and the texts of the command line, each at its position in bootimg.h, the image has nothing else, and the printed id is the digest of the files |
| EndToEnd.CompletesIff | Resources/Scripts/mkbootimg.py:477-670 | The exact condition, option by option: string lengths, page sizes, version texts, files, argument groups, address and size ranges, the second stage, and the signing tool |
| EndToEnd.IdIsTyped | Resources/Scripts/mkbootimg.py:222-232 | The id is the digest of kernel, ramdisk, second, recovery dtbo and dtb, each followed by its size in four bytes |
| EndToEnd.BootSectionsHold | Resources/Scripts/mkbootimg.py:624-634 | A boot image is its header and the sections of its version, each on pages of its own, and nothing else |
| EndToEnd.VendorSectionsHold | Resources/Scripts/mkbootimg.py:637-647 | The same for a vendor boot image, with 108 bytes of table for each fragment |
| Tool.ParseCmdline | Resources/Scripts/mkbootimg.py:477-565 | Parsing succeeds exactly when every string fits, every file exists, the groups are acceptable and no argument is left over; its result meets every assumption the writer makes (separate handles at their start, empty outputs, a table made by add_entry) |
| EndToEnd.FragmentsFollowGroups | Resources/Scripts/mkbootimg.py:421-474 | In a version 4 vendor boot image a reader finds one ramdisk per argument group, in order, after the platform ramdisk of type 1 if there is one, each with its file, type, name, and the board id that was given or sixteen zeros |
| Tool.IntendedIsExpected | Resources/Scripts/mkbootimg.py:559-563 | What the fields of both headers hold, read as C strings, is what the user typed |
| Mkbootimg.Run | Resources/Scripts/mkbootimg.py:650-670 | main after parsing: the exact condition under which nothing is raised, the contents a reader recovers from each output, and the printed id; every payload file is at its start when it is copied, whichever outputs were asked for |
| Mkbootimg.RunVendor | Resources/Scripts/mkbootimg.py:652-659 | The vendor half leaves the kernel, ramdisk and second handles at their start and the boot output alone |
| Mkbootimg.RunBoot | Resources/Scripts/mkbootimg.py:660-670 | The boot half: exact success condition and round trip |
| BootRoundTrip.RoundTrip | Resources/Scripts/mkbootimg.py:107-130 | All versions: from the header alone a reader recovers kernel, ramdisk, second, recovery dtbo, dtb, signature, addresses, version word, name, command line and id; the single exception is a version 4 image whose signing tool wrote nothing, which no reader accepts |
| BootLayout.ReaderFollowsBootimgH | Resources/Scripts/mkbootimg.py:185-264 | For any bytes the reader accepts: the magic, every member and every section it reports is at the absolute position that bootimg.h gives it, in little-endian words |
| BootLayout.ReservedAreZero | Resources/Scripts/mkbootimg.py:121-122 | The reserved words of a version 3 or 4 header are zero |
| BootRoundTrip.LegacyRoundTrip | Resources/Scripts/mkbootimg.py:185-264 | Versions 0 to 2 read back in full; an absent file reads as an empty one |
| BootRoundTrip.V3ReadsBack | Resources/Scripts/mkbootimg.py:624-634 | Versions 3 and 4 use 4096-byte pages for header and data; a version 4 signature section is one page exactly when the signature is not empty |
| BootRoundTrip.RecoveryDtboPosition | Resources/Scripts/mkbootimg.py:95-104 | The offset computed while writing the header is the output position at which the recovery dtbo is later written, for all file sizes |
| BootRoundTrip.DtboOffsetPacks | Resources/Scripts/mkbootimg.py:237-246 | That offset never overflows its 64-bit field |
| BootRoundTrip.HeaderKinds | Resources/Scripts/mkbootimg.py:107-130 | Every branch emits the members that the struct of that version declares, in order |
| BootRoundTrip.HeaderSize | Resources/Scripts/mkbootimg.py:39-44 | Every version emits exactly its declared number of header bytes (1632, 1648, 1660, 1580, 1584) and the header is one page |
| BootRoundTrip.OsWordSplits | Resources/Scripts/mkbootimg.py:217 | The os_version word fits 32 bits and splits into version and patch level |
| BootRoundTrip.LegacyWritableIff | Resources/Scripts/mkbootimg.py:185-264 | A version 0 to 2 header can be written exactly when the listed sizes and addresses are in range and version 2 has a dtb |
| BootRoundTrip.V3WritableIff | Resources/Scripts/mkbootimg.py:107-130 | A version 3 or 4 header can be written exactly when the two sizes fit 32 bits |
| BootRoundTrip.WritableVersion | Resources/Scripts/mkbootimg.py:186-190 | No header outside versions 0 to 4 can be written, negative ones included |
| BootRoundTrip.ReadSectionsShort | Resources/Scripts/mkbootimg.py:617-621 | A reader that expects a section the file does not have finds nothing |
| Mkbootimg.UnreadableIffEmptySignature | Resources/Scripts/mkbootimg.py:616-621 | Of all boot images the tool completes, exactly the version 4 images whose signing tool succeeded with an empty file have no reading |
| Mkbootimg.EmptySignatureIsUnreadable | Resources/Scripts/mkbootimg.py:616-621 | A concrete such image: the run completes and the reader finds nothing |
| Mkbootimg.SignatureReadsBack | Resources/Scripts/mkbootimg.py:616-621 | A reader of a version 4 image finds what the signing tool wrote, filled up with NULs to 4096 bytes, or zeros where nothing is signed |
| Mkbootimg.SigningFailsIff | Resources/Scripts/mkbootimg.py:614-621 | Signing makes a version 4 image fail exactly when the tool fails or writes more than 4096 bytes |
| BootRoundTrip.SignatureFillsItsPage | Resources/Scripts/mkbootimg.py:580-584 | A non-empty signature of at most 4096 bytes fills exactly one page |
| BootImage.ImageIdOf | Resources/Scripts/mkbootimg.py:232 | The id field is 32 bytes whatever the digest |
| ImageId.PreimageDecodes | Resources/Scripts/mkbootimg.py:76-82 | The bytes fed to the hash, read from their end, determine how many components there were and what each contained |
| ImageId.PreimageDeterminesComponents | Resources/Scripts/mkbootimg.py:222-230 | Two runs that feed the hash the same bytes agree on every component and on which components their versions have |
| Paging.PadFillsPages | Resources/Scripts/mkbootimg.py:85-92 | The mask form of pad_file reaches the boundary that get_number_of_pages counts |
| Paging.PadIsLeast | Resources/Scripts/mkbootimg.py:85-87 | No smaller amount of padding reaches a page boundary |
| Paging.PaddedIs | Resources/Scripts/mkbootimg.py:85-87 | Padding keeps the data, ends at the page boundary, and is all NULs |
| Paging.MaskPadsIffPowerOfTwo | Resources/Scripts/mkbootimg.py:85-87 | The mask form pads every position to a multiple of the padding exactly when the padding is a power of two |
| Paging.PageChoiceIsPowerOfTwo | Resources/Scripts/mkbootimg.py:529-530 | The accepted page sizes are powers of two |
| Paging.ImageAligned | Resources/Scripts/mkbootimg.py:352-356 | After any number of padded sections the output length is a multiple of the page size |
| Paging.PadAppended | Resources/Scripts/mkbootimg.py:352-356 | Writing data to an aligned output and padding appends exactly one section |
| Paging.ReadSectionsImage | Resources/Scripts/mkbootimg.py:624-632 | A reader that knows the section sizes recovers every section of an image, for any number of sections |
| Paging.SectionPosition | Resources/Scripts/mkbootimg.py:95-104 | A section lies at the page count of the sections before it |
| Struct.UnpackSerialize | Resources/Scripts/mkbootimg.py:113-129 | Any list of packed values reads back, strings cut or padded to their slot |
| Struct.SerializeUnpack | Resources/Scripts/mkbootimg.py:113-129 | Packing what was read gives back the bytes, so no two field lists share an encoding |
| Struct.AsciizField | Resources/Scripts/mkbootimg.py:281-287 | A NUL-free string shorter than its slot reads back with or without its terminator |
| Bytes.AndMask | Resources/Scripts/mkbootimg.py:86 | Masking with 2^k - 1 is the remainder modulo 2^k |
| Bytes.OrDisjoint | Resources/Scripts/mkbootimg.py:376 | Or-ing a value below 2^k into a word shifted by k adds it |
| Files.PadFile | Resources/Scripts/mkbootimg.py:85-87 | Extends the output to the next page boundary |
| Files.WritePaddedFile | Resources/Scripts/mkbootimg.py:352-356 | Appends the unread rest of the file and pads; an absent file leaves the output alone |
| Files.UpdateSha | Resources/Scripts/mkbootimg.py:76-82 | Feeds contents and size of a file at its start, leaves it at its start, and raises exactly for a size over 32 bits |
| Files.WriteFields | Resources/Scripts/mkbootimg.py:113-129 | A run of pack-and-write statements: raises exactly when some value does not pack |
| Files.SectionWritten | Resources/Scripts/mkbootimg.py:352-356 | A padded write of a file at its start adds one section; an absent file counts as an empty one |
| Mkbootimg.WriteHeaderV3AndAbove | Resources/Scripts/mkbootimg.py:107-130 | Writes the header of versions 3 and 4, padded to 4096; raises exactly when a value does not pack |
| Mkbootimg.WriteLegacyStart | Resources/Scripts/mkbootimg.py:192-220 | The statements of write_header before the hash |
| Mkbootimg.HashImage | Resources/Scripts/mkbootimg.py:222-232 | The id of the components in order, with every cursor where it was before |
| Mkbootimg.WriteDtboFields | Resources/Scripts/mkbootimg.py:237-252 | The recovery dtbo statements of versions 1 and 2, offset 0 where there is no file |
| Mkbootimg.WriteDtbFields | Resources/Scripts/mkbootimg.py:254-261 | The dtb statements of version 2, which refuse an empty dtb |
| Mkbootimg.WriteLegacyHeader | Resources/Scripts/mkbootimg.py:192-264 | write_header for versions 0 to 2: exact success condition, bytes and id |
| Mkbootimg.WriteHeader | Resources/Scripts/mkbootimg.py:185-264 | write_header for every version: exact success condition, padded header, returned id, cursors unchanged |
| Mkbootimg.PackableIsHashable | Resources/Scripts/mkbootimg.py:222-230 | A header that packs never fails in the hash |
| Mkbootimg.AddBootImageSignature | Resources/Scripts/mkbootimg.py:568-621 | 4096 zeros without a key or an algorithm, otherwise exactly the bytes the tool wrote, padded; raises exactly when the tool fails or writes more than 4096 bytes |
| Mkbootimg.WriteSection | Resources/Scripts/mkbootimg.py:352-356 | write_padded_file on an aligned output and a file at its start |
| Mkbootimg.WriteData | Resources/Scripts/mkbootimg.py:624-634 | Appends exactly the sections of the version, in order |
| Mkbootimg.WriteBootImage | Resources/Scripts/mkbootimg.py:660-668 | The complete boot image and the exact condition for it |
| Mkbootimg.WriteVendorBaseFields | Resources/Scripts/mkbootimg.py:144-169 | The header statements of both vendor versions |
| Mkbootimg.WriteVendorTableFields | Resources/Scripts/mkbootimg.py:171-181 | The header statements of vendor version 4 |
| Mkbootimg.WriteVendorBootHeader | Resources/Scripts/mkbootimg.py:133-182 | The vendor header: exact success condition and padded bytes |
| Mkbootimg.WriteVendorBootData | Resources/Scripts/mkbootimg.py:637-647 | Appends exactly the vendor sections of the version, in order |
| Mkbootimg.WriteVendorImage | Resources/Scripts/mkbootimg.py:652-659 | The complete vendor image and the exact condition for it |
| VendorRoundTrip.RoundTrip | Resources/Scripts/mkbootimg.py:133-182 | Versions 3 and 4: from the header alone a reader recovers the ramdisk section, the dtb, the addresses and strings, and in version 4 every table entry with its ramdisk and the bootconfig, for any number of entries |
| VendorLayout.ReaderFollowsBootimgH | Resources/Scripts/mkbootimg.py:133-182 | For any bytes the vendor reader accepts: the magic, every member, every section and every table entry it reports is at the absolute position that bootimg.h gives it |
| VendorLayout.FragmentsAt | Resources/Scripts/mkbootimg.py:340-349 | A reader reports as many fragments as the header says there are entries, each from the size, offset, type, name and board id at its place in the table |
| VendorRoundTrip.WritableIff | Resources/Scripts/mkbootimg.py:133-182 | A vendor boot image can be written exactly when there is a dtb and the listed sizes, addresses and types are in range |
| VendorRoundTrip.FragmentsReadBack | Resources/Scripts/mkbootimg.py:340-349 | Through the table a reader finds every ramdisk byte for byte, with type, name and board id, in order |
| VendorRoundTrip.EntryPosition | Resources/Scripts/mkbootimg.py:340-348 | Entry i of the table is at i times 108 bytes |
| VendorRoundTrip.HeaderSize | Resources/Scripts/mkbootimg.py:50-51 | The vendor headers are exactly 2112 and 2128 bytes: two pages at 2048, one at larger page sizes |
| VendorRoundTrip.HeaderKinds | Resources/Scripts/mkbootimg.py:144-181 | The vendor header emits the members its struct declares, in order |
| VendorRoundTrip.EntrySize | Resources/Scripts/mkbootimg.py:59 | A table entry is 108 bytes |
| VendorRoundTrip.OnlyTypesCanFail | Resources/Scripts/mkbootimg.py:340-348 | Once the header is packed, only a ramdisk type can still be out of range in the table |
| VendorTable.BuilderRuns | Resources/Scripts/mkbootimg.py:308-333 | After any run of add_entry: each entry describes its file and starts where the files before it end, the total is the section length, stripped names are unique, recorded and not banned, and the entries are the requests in order |
| VendorTable.BuilderRunsIff | Resources/Scripts/mkbootimg.py:308-329 | A run of add_entry calls succeeds exactly when every request has a name other than default, sixteen unsigned 32-bit words if it gives a board id, and a file, and no two stripped names are equal |
| VendorTable.BuilderTotal | Resources/Scripts/mkbootimg.py:333 | The total of a run is the sum of the sizes of its files |
| VendorTable.AcceptableIff | Resources/Scripts/mkbootimg.py:308-328 | One request in the same plain terms; its board id is the one given or zeros |
| VendorTable.AddKeepsTable | Resources/Scripts/mkbootimg.py:308-333 | One add_entry keeps that invariant |
| VendorTable.EntrySlice | Resources/Scripts/mkbootimg.py:335-339 | The slice at an entry's offset and size of the written section is its file |
| VendorTable.SlicesTile | Resources/Scripts/mkbootimg.py:330-333 | The slices follow each other without gap and cover the section |
| VendorTable.SlicesDisjoint | Resources/Scripts/mkbootimg.py:330-333 | Slices of different entries do not overlap |
| VendorTable.NamesDistinctOnDisk | Resources/Scripts/mkbootimg.py:310-317 | Accepted names of at most 32 bytes stay distinct in their fields, and differ from the banned name |
| VendorTable.SharedFieldIff | Resources/Scripts/mkbootimg.py:346-347 | Two names share a field exactly when they agree once cut to 32 bytes and stripped |
| VendorTable.LongNamesCollide | Resources/Scripts/mkbootimg.py:308-317 | add_entry alone accepts two longer names that share a field |
| VendorTable.RefusedCallRecordsIff | Resources/Scripts/mkbootimg.py:308-333 | A refused call records a new name exactly when the name was fine and the board id or the path was not |
| VendorTable.AcceptableAfter | Resources/Scripts/mkbootimg.py:314-317 | What any call, accepted or refused, does to later calls: it takes its own name away and nothing else |
| VendorTable.RefusedNameIsTaken | Resources/Scripts/mkbootimg.py:317-328 | A valid request is refused because one with its name was refused for its board id before it |
| Builder.VendorRamdiskTableBuilder.AddEntry | Resources/Scripts/mkbootimg.py:308-333 | Accepts exactly requests that fit under a name not recorded yet and appends an entry with the path, the size of the file, the total so far, and type, name and board id as given; a refused call leaves entries and total alone and records its name unless that is the banned one |
| Builder.VendorRamdiskTableBuilder.WriteRamdisksPadded | Resources/Scripts/mkbootimg.py:335-339 | Appends the files in order and pads once |
| Builder.VendorRamdiskTableBuilder.WriteEntriesPadded | Resources/Scripts/mkbootimg.py:341-349 | Appends the table and pads; raises exactly when an entry does not pack |
| Builder.VendorRamdiskTableBuilder.WriteEntry | Resources/Scripts/mkbootimg.py:343-348 | One table entry: four values and the board id array |
| RamdiskArgs.ParseVendorRamdiskArgs | Resources/Scripts/mkbootimg.py:444-474 | The group loop terminates; it succeeds exactly when every group parses and every entry is acceptable, and then holds the entries in order and hands back what no group knew |
| RamdiskArgs.GroupsAcceptedIff | Resources/Scripts/mkbootimg.py:444-474 | Nothing is refused and nothing left over exactly when every group parses and knows all its arguments, none follow the last group, and the requests fit; then the table is for the platform ramdisk and these requests in order |
| RamdiskArgs.GroupsCover | Resources/Scripts/mkbootimg.py:449-452 | The groups followed by the remainder are the original argument list |
| RamdiskArgs.GroupsWellFormed | Resources/Scripts/mkbootimg.py:449-452 | Each group has its first fragment flag second to last; only the very last group can lack the value |
| RamdiskArgs.TableMatchesGroups | Resources/Scripts/mkbootimg.py:445-473 | The table has one entry per group, after the platform entry if there is one, and keeps the table invariant |
| RamdiskArgs.NamesOnDisk | Resources/Scripts/mkbootimg.py:435-436 | In a table built from a command line all names are pairwise different on disk and none is the banned one |
| CommandLine.RejoinsIffNulFree | Resources/Scripts/mkbootimg.py:559-563 | Splitting the command line over two fields and reading both back is the identity exactly on NUL-free command lines, at every accepted length |
| CommandLine.SplitFits | Resources/Scripts/mkbootimg.py:562-563 | The two length asserts never fail |
| CommandLine.OptionsParse | Resources/Scripts/mkbootimg.py:477-565 | Accepted options are in range for the writer, every number is passed on as it was typed, and every string reads back from its field as typed |
| CommandLine.OptionsAcceptedIff | Resources/Scripts/mkbootimg.py:281-287 | Options are accepted exactly when the strings fit with their terminators, the page size is one of the four choices and the parts of both versions are in range |
| OsVersion.WrittenVersionParses | Resources/Scripts/mkbootimg.py:363-376 | A version text of one to three parts, with whatever follows it, is accepted exactly when its parts fit seven bits, and never truncated |
| OsVersion.EveryVersionText | Resources/Scripts/mkbootimg.py:363-377 | Every text that starts with a digit is such a version text; every other text gives 0 |
| OsVersion.WrittenPatchLevelParses | Resources/Scripts/mkbootimg.py:380-388 | A text that starts with a four-digit year, a dash and a two-digit month is accepted exactly for years 2000 to 2127 and months 1 to 12, whatever follows |
| OsVersion.EveryPatchText | Resources/Scripts/mkbootimg.py:380-389 | Every text that matches the pattern is one of those; every other text gives 0 |
| OsVersion.ParsedFits | Resources/Scripts/mkbootimg.py:363-389 | Every accepted text gives a value that fits the bits the header reserves |
| OsVersion.WordDecodes | Resources/Scripts/mkbootimg.py:119 | The packed word fits 32 bits and decodes to the five numbers, month 0 included |
| OsVersion.AcceptedTextsDecode | Resources/Scripts/mkbootimg.py:217 | For any two accepted texts the word fits 32 bits and a bootloader reads back the numbers they say, 0 for parts that are not there |
| CommandLine.OptionsWordDecodes | Resources/Scripts/mkbootimg.py:521-524 | The same for the word that accepted options put in the header, with either option given or left out |
| PatchProtocol.CompileSeesEveryPatchOnce | build_uefi.py:487-516 | Over any sequence of builds, interruptions and updates that may replace the patches, from any tree: whenever UEFI is compiled every patch there is was out when applying began, is in now, and no other file has changed since |
| PatchProtocol.EveryInterruptionIsRecovered | build_uefi.py:487-512 | Wherever earlier builds in a run were interrupted, a build that starts at an idle point and is not interrupted reaches compilation fourteen steps later with every patch in, with or without an update of its own |
| PatchProtocol.BuildInRunCompilesIff | build_uefi.py:487-512 | Without updates, fourteen steps of a build in a run end in compilation exactly when every patch file is there and every patch is wholly in or wholly out at the start; the tree is then the one after removing all and applying all |
| PatchProtocol.AnythingCanHappen | build_uefi.py:487-516 | The runs these results are about: a build can be stopped at any point of any run, and an update can bring any tree and any patches |
| PatchProtocol.BuildReachesCompileIff | build_uefi.py:487-512 | Removing all and then applying all succeeds exactly when every patch file is there and every patch is wholly in or wholly out beforehand |
| PatchProtocol.CompilationsAgree | build_uefi.py:487-516 | Without updates, every compilation in a sequence of interrupted builds sees the same files |
| PatchProtocol.AppliedIff | build_uefi.py:508-512 | Applying succeeds exactly when every patch is there and out; then every patch is in |
| PatchProtocol.RemovedIsOut | build_uefi.py:487-489 | After the removals, whose results are ignored, a patch is out exactly when it was settled before |
| PatchProtocol.RunKeepsSettled | build_uefi.py:487-512 | No point of any sequence of builds leaves a patch half in |
| PatchProtocol.RunKeepsInv | build_uefi.py:508-512 | While patches are applied the tree is the base with exactly the patches so far |
| PatchProtocol.Basecore.HandleGitPatch | build_uefi.py:147-170 | One patch command on the working tree: all or nothing, false where the patch file is missing |
| PatchProtocol.Basecore.RemovePatches | build_uefi.py:487-489 | The removal loop |
| PatchProtocol.Basecore.ApplyPatches | build_uefi.py:508-512 | The application loop, which stops at the first failure |
| PatchProtocol.PrepareSources | build_uefi.py:487-512 | main between cleaning up and compiling: compilation is reached exactly when the external commands succeed and every one of the four patches that are there after an update is out in the tree the last command left, or settled before the removals where no command ran; then every one of them is in |
| BuildImage.Disk.MakeKernel | build_uefi.py:248-316 | The kernel file is the boot shim (if enabled) and the volume, compressed if configured, then the device tree; exact success condition over the files before |
| BuildImage.Disk.CreateAndroidBootImg | build_uefi.py:237-361 | Every member a reader finds in the produced image, in terms of the configuration, the files and that kernel; exact success condition |
| BuildImage.CommandImage | build_uefi.py:327-361 | Every member a reader finds in the image of a completed command: addresses, versions, strings, sections and the id, for every header version |
| BuildImage.BlobUnpacks | build_uefi.py:255-316 | Undoing the kernel steps recovers shim, volume and device tree |
| BuildImage.KeysReachImageIff | build_uefi.py:335-358 | Key by key over the image read back: up to version 2 a configured base plus kernel, tags or ramdisk offset is the address of the image exactly when neither is zero, likewise the dtb offset in version 2; the second offset never reaches it, the dtb keys only version 2, and no address reaches version 3 or 4 |
| BuildImage.CommandCompletesIff | build_uefi.py:327-361 | Exactly when the command completes, for every header version, in terms of the configuration and the files |
| BuildImage.RunCommand | build_uefi.py:360-361 | Running the tool with that command: exact success condition, and the image |
| BuildImage.ZeroOffsetIsLost | build_uefi.py:356 | A configuration with a zero kernel offset: the command completes and the image has the default offset |
| BuildImage.SecondOffsetIsLost | build_uefi.py:328-333 | The addresses of Resources/Configs/lancelot.toml: the command completes and the second address of the image is 0 |

## Left out

- argparse, regular expressions beyond the two version patterns, `fstat` and file opening: parsed values and a map from paths to contents stand for them. Digits are ASCII digits.
- `int(x, 0)` and the text form of forwarded numbers: numbers are passed as numbers.
- The first parser pass that reads only `--header_version`: both passes are taken to see the same version.
- SHA-1 (FIPS 180-4) and gzip: arbitrary functions. The signing tool: an arbitrary result, and it leaves the image itself alone.
- The bytes a failing run has written so far: on failure only the exception is modelled.
- Consecutive `write(pack(...))` statements are one call of `Files.WriteFields` with the fields in statement order, and `write_header` is cut into runs of such statements.
- `parse_vendor_ramdisk_type` and the parser of one argument group: an arbitrary function from the group to a request.
- `create_payload_file`, `cleanup_old_build`, `compile_boot_shim`, `compile_uefi` and the device build scripts: constant commands whose only effect here is success or failure.
- Patch hunks with context and offsets: a patch replaces whole file contents.
- Updates and the environment preparation: any tree may result. Recovery is stated for those that leave no patch half in, and for a build whose own update or preparation checks the patched files out clean.
- The C libraries and register headers of the platforms: constant tables.
