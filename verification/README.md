# MediaLith, modelled and proved

A Dafny 4.11 model of the parts of the MediaLith appliance (crates `plexos-*`) where a mistake is
expensive, with proofs about every input, every run or every reachable state. `dafny verify
dfyconfig.toml` checks all of it.

**Installing an app image** (`Store`, `Build`, `Mount`, `Install`, `InstallSafety`,
`InstallImages`, `InstallProgress`). The image directory is a map from names to files, directories
and links. A run may stop between or inside any step of its plan: a removal half done, a record half
written, an image half made. `AppsDirectory` performs the steps on that map; `Done` and `Stopped`
say what each step may leave, and `Feasible` when an uninterrupted one gets to its end. The theorems
follow any number of stopped and completed attempts: what is never broken, what a completed one
restores, and that an uninterrupted one always completes.

**Checking a package** (`Octets`, `Archive`, `ArchiveFormat`, `Manifest`, `Package`, `Provision`).
The archive walker and the copy loop read a file that may give fewer bytes than asked for. Hashing,
signature checking and tar's reading of the control file are arbitrary functions. `Provision` joins
this group to the first: over every history of attempts at checked packages, every image in use was
made of a vouched payload.

**The partition table** (`Crc`, `LittleEndian`, `Guid`, `Partition`, `GptPlan`, `GptTable`,
`GptReader`). The writer fills byte buffers in place as the original does. The reader in `GptReader`
shares nothing with it but the CRC and the integer encoding, and follows the UEFI specification,
version 2.10, from either end of a disk whose previous content is arbitrary. The CRC is the
remainder of polynomial division over GF(2).

**The supervisor** (`Supervise`). A class over service rows, with an environment that owns the live
and the exited processes and says whether waiting for a child, or starting a program, may fail. Each
row is proved to be the replay of a legal history, and the restart bound is a potential argument over
histories.

**Boot** (`Cmdline`, `MountOptions`, `BootPlan`, `BootRun`, `BootSafety`, `Device`, `Verity`,
`Mapper`, `Clock`). The plan is interpreted over an abstract mount namespace where a mount hides
what is below it and a move carries what is below it along. A mount remembers the verity device its
source named, or the mounts its overlay layers were on, at the moment it was made; so the theorem
depends on the plan's order, and `UsrBeforeVerity` and `EtcBeforeVar` say what two other orders
lose. A machine is blind once a step was issued on a mount point, a link's directory, an overlay's
upper or work directory, a mapped device, or a mount to be moved, initialised or switched to that
was not there, on a label without a sysfs on `/sys` and a devtmpfs on `/dev`, or on a build stamp
not on a verity mount. Every step is free to fail, labels resolve to whatever the device rules
allow, and the mounts and mapped devices at the start are arbitrary apart from mount points being
directories: where another file system stands on one of the kernel's mount points the machine may
become blind, and every other conclusion holds all the same.

Conventions. What an operation answers is stated a second time without its own function: by
literals, by where things stand in the input, or by an independent reader. Integers are unbounded;
widths are written out where they matter (`SaturatingAdd`, the 32-bit clamps, the offset bounds of
the archive). Where the original is a loop or changes state, the model is a method proved against a
function, and the lemmas are about that function.

## What the proofs found

Each of these is a fact about the code, with a lemma that states exactly when it happens.

- Reinstalling the version `current` names opens a window in which that image and its record
  disagree, because the record is written under its final name first
  (`InstallSafety.OnlyReinstallingOpensAWindow`). No other install does. Counting every image and
  not only the active one, it opens exactly when the version installed has an image already
  (`InstallImages.OnlyReplacingAnImageOpensAWindow`).
- The size a refusal reports as needed is 1 MiB, the backup array and a sector short
  (`GptPlan.ReportedNeedIsNotEnough`).
- `guid_bytes` accepts texts that are not GUIDs: a plus may stand for a leading zero
  (`Guids.PlusReadsAsZero`).
- `build_time` accepts the 31st of a shorter month and gives the time of a day of the next month
  (`Clock.UnrealDateSpills`): `0.1.0.202602310000` is 3 March 2026 (`Clock.FebruaryThirtyFirst`).
  On no other input does a date name another day (`Clock.OnlyRealDatesNameTheirDay`).
- `disk_of` does not invert the naming of a disk whose name ends in a digit and a `p`
  (`Device.DiskOfInvertsNaming`).
- `digest_from_record` does not find the digest that `record_body` wrote for a name with outer white
  space or a line break (`Store.RecordRoundTrip`), so a version spread over two lines could be
  published and never mounted (`InstallSafety.PublishedIsUsable`); a version read from a control
  file never is (`Provision.AcceptedIsValidJob`).

Where comments and code disagree the model follows the code: `is_hex` accepts upper case although
its comment says lower (`crates/plexos-plex/src/manifest.rs:107-110`); `table` emits five regions
although its comment counts four (`crates/plexos-types/src/gpt.rs:264-271`); only the first of two
manifest entries with one name is compared (`crates/plexos-plex/src/lib.rs:170`); `directory` accepts
an archive whose last payload is cut short, which only reading the payload notices
(`crates/plexos-plex/src/ar.rs:175-180`).

## Model

| member | source | states |
|---|---|---|
| Store.ParseMeans | crates/plexos-plex/src/store.rs:60-93 | a text is a version exactly when it is numbers of 64 bits with dots between them, alone or before a dash and anything; they are its components and the text is kept whole |
| Store.VersionOfImageName | crates/plexos-plex/src/store.rs:68-125 | reading an image name back gives exactly the version it was made from |
| Store.ImageNamesDiffer | crates/plexos-plex/src/store.rs:85-93 | two different versions never share an image name |
| Store.Cmp | crates/plexos-plex/src/store.rs:102-119 | the component loop computes the specified comparison |
| Store.CompareIsLexicographic | crates/plexos-plex/src/store.rs:102-119 | the comparison is lexicographic order on components padded with zeros: less exactly when the first difference is smaller, equal exactly when there is none |
| Store.AtMostIsATotalPreorder | crates/plexos-plex/src/store.rs:96-119 | versions are totally preordered; two that differ in their build suffix alone are tied without being equal |
| Store.SupersededSparesTheNewest | crates/plexos-plex/src/store.rs:143-176 | of the versions other than the one kept, at most one is spared, all others are removed, each removed one is at most the spared one even among ties, and the kept one is never removed |
| Store.SupersededInOrder | crates/plexos-plex/src/store.rs:163-176 | what is superseded comes newest first |
| Store.ListingMeans | crates/plexos-plex/src/store.rs:143-150 | a listing's versions, oldest first and tied ones as they were listed, and the version the link names |
| Store.DigestMeans | crates/plexos-plex/src/store.rs:201-212 | a digest is read from a record for a name exactly when the first line has, around its first two consecutive spaces and apart from white space, 64 hexadecimal digits and that name; it is those digits in lower case |
| Store.OtherNamesGiveNothing | crates/plexos-plex/src/store.rs:191-212 | a record written for one name gives nothing for any other |
| Store.RecordRoundTrip | crates/plexos-plex/src/store.rs:191-212 | the digest read from a record is the one written, lower-cased, exactly when the image name is trimmed and on one line |
| Build.StagingIsScratch | crates/plexos-plex/src/build.rs:42-74 | staging names never read as a version and differ from every image, record and the link |
| Build.RecordsAreNotImages | crates/plexos-plex/src/build.rs:42-74 | a record name never reads as a version nor collides with an image |
| Install.AppsDirectory.RemoveAny | crates/plexos-plex/src/execute.rs:188-197 | one name is gone, or the run ended with at most a half-emptied directory left there; uninterrupted, it is gone |
| Install.AppsDirectory.ActivateLink | crates/plexos-plex/src/execute.rs:303-315 | the link is swapped by rename, or the run ended with the old link in place; uninterrupted, it is swapped exactly when neither the swap name nor the link is a directory |
| Install.AppsDirectory.UnpackInto | crates/plexos-plex/src/execute.rs:200-253 | the whole payload unpacked, or some tree left; uninterrupted, exactly when the package holds the payload and the directory is there |
| Install.AppsDirectory.MakeImage | crates/plexos-plex/src/execute.rs:256-285 | an image of the tree, or some file left; uninterrupted, exactly when `mkfs.erofs` makes one and the name is no directory |
| Install.AppsDirectory.WriteRecord | crates/plexos-plex/src/execute.rs:148-158 | the record of the image's digest, or a prefix of it left; uninterrupted, exactly when the image is a file and the record no directory |
| Install.AppsDirectory.Perform | crates/plexos-plex/src/execute.rs:123-173 | each step leaves the directory as its success or its interruption allows, nothing else; uninterrupted, it succeeds exactly when nothing in the directory, the package or `mkfs.erofs` stands in its way |
| Install.AppsDirectory.Plan | crates/plexos-plex/src/execute.rs:179-185 | steps in order up to the first that ends the run; an uninterrupted run ends early only at a step that cannot be done |
| Install.AppsDirectory.Run | crates/plexos-plex/examples/provision.rs:111-123 | a listing, the retention decision and the plan made of them, carried out; an uninterrupted run ends early only at a step that cannot be done |
| InstallSafety.CheckAnswers | crates/plexos-plex/src/mount.rs:179-220 | every answer of the check and when it is given: what is missing, unreadable, altered, or the digest both agree on |
| InstallSafety.UsableMeans | crates/plexos-plex/src/mount.rs:179-220 | the check accepts an image exactly when the record beside it is a file that holds, for that very name, the digest of the image's present bytes, in either case |
| Text.LowerMeans | crates/plexos-plex/src/mount.rs:207-212 | digests are compared up to the case of ASCII letters |
| InstallSafety.PublishedIsUsable | crates/plexos-plex/src/build.rs:171-182 | a published image with its record passes the check exactly when the version is on one line |
| InstallSafety.PlannedRemovals | crates/plexos-plex/src/build.rs:190-201 | what a plan removes: every other image but at most one, the newest, and nothing the plan publishes |
| InstallSafety.AttemptIsSafe | crates/plexos-plex/src/execute.rs:123-185 | one attempt, stopped between or inside any step, keeps every version-named image whole and `current` on one of them; and that one usable, unless the attempt reinstalls it |
| InstallSafety.EveryHistoryIsSafe | crates/plexos-plex/src/build.rs:143-202 | the same over every sequence of attempts, each stopped anywhere |
| InstallSafety.OnlyReinstallingOpensAWindow | crates/plexos-plex/src/build.rs:171-182 | the active image stays usable wherever an attempt stops if and only if the attempt is not for the active version |
| InstallSafety.CompletionRecovers | crates/plexos-plex/src/build.rs:143-202 | from any state stopped attempts leave, a completed plan leaves, name by name, `current` linked to the version's image, that image made of the job's own payload, and the record of its digest; it is usable, and at most one other image stays, the newest there was |
| InstallImages.AttemptKeepsAll | crates/plexos-plex/src/build.rs:171-201 | where every image passes the check, an attempt for a version without an image keeps it so, stopped anywhere: the record is written before the rename and removed after its image |
| InstallImages.OnlyReplacingAnImageOpensAWindow | crates/plexos-plex/src/build.rs:171-201 | every image stays usable wherever an attempt stops if and only if the version it installs has no image yet |
| InstallImages.NoImageWithoutItsRecord | crates/plexos-plex/src/build.rs:143-202 | over every history of such attempts from the empty directory every image always passes the check |
| InstallProgress.CanComplete | crates/plexos-plex/src/build.rs:153-199 | from any directory where only staging roots are directories, a job that can be built has a run that completes |
| InstallProgress.NeverWedged | crates/plexos-plex/src/build.rs:153-199 | after any history of attempts on a fresh directory, each stopped anywhere, every job that can be built can still be completed |
| InstallProgress.UninterruptedRunsFinish | crates/plexos-plex/src/build.rs:153-199 | after any such history no run of a job that can be built meets a step that cannot be done, so an uninterrupted one gets to its end |
| Supervise.PotentialPays | crates/plexos-init/src/supervise.rs:310-312 | the delay before every attempt, and the forgiveness period, pay for one restart each |
| Supervise.AlwaysInCredit | crates/plexos-init/src/supervise.rs:213-277 | the amortised account of any window of attempts is never overdrawn |
| Supervise.RestartsAreBounded | crates/plexos-init/src/supervise.rs:213-277 | over every legal history and every window in it, n attempts take at least 12 s each less 54 s, however exits, refusals and forgiveness fall |
| Supervise.TheBoundIsReached | crates/plexos-init/src/supervise.rs:53-59 | a history that meets the bound with equality |
| Supervise.DelaysAreCounted | crates/plexos-init/src/supervise.rs:53-59 | the delay of every exit and refusal is 0, 1, 2, 5, 10 or 30 s by the number of exits and refusals before it since the last exit after a run of a minute or more, that one included; such an exit itself has none |
| Supervise.EachFollows | crates/plexos-init/src/supervise.rs:213-277 | every exit comes right after the start of its process, and no attempt is made before the delay announced last is over |
| Supervise.StandsAs | crates/plexos-init/src/supervise.rs:213-277 | a service runs exactly when the last thing that happened was its start, and may otherwise be tried as soon as its last delay is over, or at once when nothing has happened |
| Supervise.StartsAndExitsAlternate | crates/plexos-init/src/supervise.rs:213-277 | a service's starts and exits strictly alternate and each exit is of the process started before it |
| Supervise.Supervisor.Owner | crates/plexos-init/src/supervise.rs:221-223 | the row of a process, or none |
| Supervise.Supervisor.Bury | crates/plexos-init/src/supervise.rs:221-242 | an owned child is entered as an exit of its own row, an orphan changes nothing |
| Supervise.Supervisor.Collect | crates/plexos-init/src/supervise.rs:220-243 | unless waiting for a child fails, every child that had exited is gone and none is left to collect, and each row that owned one is reported; the loop ends, and the events say exactly what was entered |
| Supervise.Supervisor.TryStart | crates/plexos-init/src/supervise.rs:251-273 | a due service is started under a fresh process, or, only if its program cannot be started, its next attempt is put off by its backoff |
| Supervise.Supervisor.StartDue | crates/plexos-init/src/supervise.rs:245-274 | afterwards every service runs, waits, or could not be started just now |
| Supervise.Supervisor.Tick | crates/plexos-init/src/supervise.rs:213-277 | one pass keeps the table equal to legal histories with distinct live processes, reports exactly what it entered and, unless waiting fails, every service whose process had exited, and settles every service |
| Crc.Crc32 | crates/plexos-types/src/gpt.rs:472-482 | the masked bit loop computes the specified register |
| Gf2.DivisionIdentity | crates/plexos-types/src/gpt.rs:472-482 | the remainder used as specification is that of division by the generator: the dividend is a multiple of it plus the remainder |
| CrcTheory.ChecksumIsTheRemainder | crates/plexos-types/src/gpt.rs:472-482 | the checksum is the complemented remainder modulo the CRC-32 polynomial of the message with its first 32 bits inverted |
| CrcTheory.ChecksumIsRfc1952 | crates/plexos-types/src/gpt.rs:472-482 | it equals the table-driven form of section 8 of RFC 1952 on every byte string |
| CrcTheory.BurstIsDetected | crates/plexos-types/src/gpt.rs:472-482 | two strings that differ only within four consecutive bytes have different checksums |
| Guids.GuidBytes | crates/plexos-types/src/gpt.rs:438-464 | accepts exactly the texts of 36 characters dashed at four places whose pairs are hexadecimal or a plus and a digit, and stores each pair at its mixed-endian place |
| Guids.LeadingFieldsAreLittleEndian | crates/plexos-types/src/gpt.rs:453-463 | the three leading fields are stored as little-endian integers of the numbers their digits spell |
| Guids.TrailingBytesKeepTheirOrder | crates/plexos-types/src/gpt.rs:453-463 | the last eight bytes are stored in the order of the text |
| Guids.StoredInvertsFormat | crates/plexos-types/src/gpt.rs:438-464 | any sixteen bytes, written canonically, are read back |
| Guids.FormatInvertsStored | crates/plexos-types/src/gpt.rs:438-464 | an accepted text is given back by formatting exactly when it is canonical |
| Guids.CanonicalIsAccepted | crates/plexos-types/src/gpt.rs:438-464 | every canonical text is accepted |
| Guids.PlusReadsAsZero | crates/plexos-types/src/gpt.rs:446-451 | a plus in place of a leading zero of any pair is accepted and changes nothing, so texts that are not GUIDs are read |
| Partition.FrozenLayout | crates/plexos-types/src/partition.rs:121-152 | six partitions of these labels and sizes in this order, the last one growing, and 2624 MiB of fixed ones |
| GptPlan.FixedBytes | crates/plexos-types/src/gpt.rs:256-262 | the sum of the fixed sizes |
| GptPlan.Plan | crates/plexos-types/src/gpt.rs:187-252 | for any layout whose only unsized entry is last, the cursor loop gives the closed form, or exactly the error of the first thing wrong |
| GptPlan.PlacementIsSound | crates/plexos-types/src/gpt.rs:187-252 | each placement is aligned, inside the usable area and of exactly the size asked for; the last ends where that area does and holds at least 8 GiB |
| GptPlan.PlacementsAreDisjoint | crates/plexos-types/src/gpt.rs:207-235 | placements are ordered as the layout and never overlap |
| GptPlan.PlacementsAreContiguous | crates/plexos-types/src/gpt.rs:207-235 | and leave no gap |
| GptPlan.FrozenLayoutFits | crates/plexos-types/src/gpt.rs:187-262 | the frozen layout is accepted exactly for sectors of 512 or 4096 bytes and at least 2625 MiB, 8 GiB, the backup array and a sector |
| GptPlan.ReportedNeedIsNotEnough | crates/plexos-types/src/gpt.rs:223-249 | a disk of exactly the size a refusal calls needed is refused with that same number |
| GptPlan.LargerDiskFits | crates/plexos-types/src/gpt.rs:187-252 | a larger disk of the same sector size is never refused where a smaller one fits, and only the last placement differs |
| GptTable.WriteEntry | crates/plexos-types/src/gpt.rs:381-401 | fills one zeroed slot with the entry of a placement, or names the bad GUID |
| GptTable.Header | crates/plexos-types/src/gpt.rs:351-378 | the 92-byte header with the checksum taken while its own field is zero |
| GptTable.ProtectiveMbr | crates/plexos-types/src/gpt.rs:408-431 | the protective MBR, its size field saturated |
| GptTable.WriteEntries | crates/plexos-types/src/gpt.rs:287-295 | all entries in order, or the index of the first bad GUID |
| GptTable.Table | crates/plexos-types/src/gpt.rs:272-342 | the five regions, or exactly the first error |
| GptReader.BothCopiesReadBack | crates/plexos-types/src/gpt.rs:272-342 | written to a disk of any previous content, the table is found valid by a reader of UEFI 2.10 section 5.3.2 from either end; each header names the other, the usable area of the plan, and the same entry array with a right checksum |
| GptReader.UsedEntryReadsBack | crates/plexos-types/src/gpt.rs:381-401 | the reader of section 5.3.3 recovers each placement, type GUID, unique GUID and name |
| GptReader.OtherEntriesAreUnused | crates/plexos-types/src/gpt.rs:287-295 | every other entry is not in use |
| GptReader.NameReadsBack | crates/plexos-types/src/gpt.rs:393-399 | a name is recovered exactly when its UTF-16 form fits in 36 units and has no null |
| GptReader.HeadersDifferInFourFields | crates/plexos-types/src/gpt.rs:301-318 | the two headers differ only in own address, alternate address, array address and checksum |
| GptReader.PartitionsAreUntouched | crates/plexos-types/src/gpt.rs:320-341 | no byte of any placed partition is written |
| GptReader.MbrIsProtective | crates/plexos-types/src/gpt.rs:408-431 | the MBR reads as section 5.2.3 describes it |
| GptReader.FrozenTableSucceeds | crates/plexos-types/src/gpt.rs:272-342 | on the frozen layout the table exists exactly when the plan does and six identifiers are given |
| GptReader.TableRefusals | crates/plexos-types/src/gpt.rs:272-300 | why there is no table on a disk that can be planned: the number of identifiers, or the first type text that is no GUID |
| GptReader.InstalledDisk | crates/plexos-types/src/partition.rs:121-152 | from either end of an installed disk the reader sees, in plain values, the six labels, type GUID texts and unique GUIDs, partitions that start at 1, 513, 1537, 1569, 2593 and 2625 MiB, the first five of 512, 1024, 32, 1024 and 32 MiB, the last up to the backup array |
| Archive.Directory | crates/plexos-plex/src/ar.rs:100-184 | for every pattern of short reads the walker gives the directory of the file, or a read error |
| ArchiveFormat.AcceptedDirectory | crates/plexos-plex/src/ar.rs:100-184 | on any accepted input members are named, each header follows the padded payload before it, the walk reached the end, and no offset overflows 64 bits |
| ArchiveFormat.DirectoryAnswers | crates/plexos-plex/src/ar.rs:100-184 | every answer on any bytes: exactly the members that stand one after the other from the magic to the end, at most 64 of them, or the first thing wrong and where |
| ArchiveFormat.HeaderReadsBack | crates/plexos-plex/src/ar.rs:148-171 | a header written to the format gives back its name and size |
| ArchiveFormat.DirectoryOfPrefix | crates/plexos-plex/src/ar.rs:100-184 | every prefix of an archive of at most 64 well-formed members: no magic is refused, a cut header is refused with its index, otherwise exactly the members whose headers are complete, at their true offsets |
| ArchiveFormat.ArchiveReadsBack | crates/plexos-plex/src/ar.rs:100-184 | a whole archive gives every name and size, and the bytes at each offset are the payload that was put in |
| Manifests.Parse | crates/plexos-plex/src/manifest.rs:121-182 | the line loop computes the specified reading |
| Manifests.ManifestMeans | crates/plexos-plex/src/manifest.rs:107-182 | a text is read as a manifest exactly when the block after its first `Files:` line is the entries, four words a line with digests of 32 and 40 digits and a size of 64 bits, and the signer and role are those of the last lines on them before it |
| Manifests.ManifestRefused | crates/plexos-plex/src/manifest.rs:121-182 | otherwise there is no such line, its block is empty, or a line of it is refused for the reason given |
| Manifests.EndsBlockMeans | crates/plexos-plex/src/manifest.rs:141-146 | the block ends at a line of white space alone or one that starts with neither a blank nor a tab |
| Manifests.StartsBlockMeans | crates/plexos-plex/src/manifest.rs:134-136 | and starts after `Files:` with nothing but white space after it |
| Manifests.ParseInvertsPrint | crates/plexos-plex/src/manifest.rs:121-182 | any non-empty well-formed manifest, printed between other lines and with text after its block, is read back |
| Package.AgreesWith | crates/plexos-plex/src/lib.rs:159-197 | the two comparison loops give the specified report |
| Package.ReportIsExact | crates/plexos-plex/src/lib.rs:159-197 | a problem is reported exactly when it is one: unlisted, missing, wrong size or digest against the first entry of the name, or unsigned |
| Package.EmptyReport | crates/plexos-plex/src/lib.rs:159-197 | nothing is reported exactly when the signature member is there, every other member matches its first entry and every entry is there; order does not matter |
| Package.Unpack | crates/plexos-plex/src/execute.rs:200-253 | tar is only ever fed a prefix of the payload; success means all of it; without another fault it fails only for a file that ends early |
| Package.CheckPackage | crates/plexos-plex/examples/provision.rs:61-109 | the checks in their order give the verdict; a read fault can only refuse |
| Package.AcceptedExactly | crates/plexos-plex/examples/provision.rs:61-109 | a package is accepted exactly when every payload is there, the checked text of its signature member is a manifest its members agree with, its first control member names a version and it has a data member; it is accepted as that version and that data |
| Package.VersionMeans | crates/plexos-plex/examples/provision.rs:188-193 | a control file names the version whose text is what follows `Version:`, apart from white space, on the first line that starts so, build suffix included |
| Package.RefusalMeans | crates/plexos-plex/examples/provision.rs:61-109 | a refusal gives a reason that is there |
| Package.AcceptedIsVouched | crates/plexos-plex/examples/provision.rs:61-109 | an accepted package's first data member is whole and of the size and digest of the signed manifest's first entry of that name, and its version is the one its first control member names |
| Package.CheckAndUnpack | crates/plexos-plex/examples/provision.rs:61-123 | check and streaming together feed tar exactly the vouched payload, or fail |
| Provision.AcceptedIsValidJob | crates/plexos-plex/examples/provision.rs:98-123 | what is installed from an accepted package meets the assumptions of the install theorems |
| Provision.OnlyVouchedImagesAreUsed | crates/plexos-plex/examples/provision.rs:61-123 | over every history of attempts at packages that passed the checks, each stopped anywhere, from the empty directory: every image was made of a vouched payload, `current` links to one of them, and it always passes the check if no attempt reinstalls the active version |
| Clock.TomorrowIsOneMore | crates/plexos-init/src/clock.rs:88-96 | the next real date is one more day, across months, leap days, centuries and negative years |
| Clock.CountArrives | crates/plexos-init/src/clock.rs:88-96 | counting that many days from 1970-01-01, either way, arrives at the date |
| Clock.OnlyRealDatesNameTheirDay | crates/plexos-init/src/clock.rs:69-96 | among the dates the range check lets through, exactly the real ones name their own day |
| Clock.BuildTimeOfVersion | crates/plexos-init/src/clock.rs:59-81 | a version whose fourth component is a printed stamp within the range check gives that stamp's seconds, whatever the other components are |
| Clock.OnlyVersionsHaveBuildTimes | crates/plexos-init/src/clock.rs:59-81 | and no other string has a build time |
| Clock.BuildTimeIsPosix | crates/plexos-init/src/clock.rs:59-96 | for a real date from 1970 on the build time of the string is the seconds since the Epoch of POSIX.1-2017, Base Definitions, section 4.16 |
| Clock.LaterVersionIsLater | crates/plexos-init/src/clock.rs:59-96 | between versions with real dates the larger twelve digits give the later build time, and equal times come from equal digits |
| Clock.UnrealDateSpills | crates/plexos-init/src/clock.rs:69-81 | a version with a day past the end of its month has the build time of one that says so many days into the next month |
| Clock.FebruaryThirtyFirst | crates/plexos-init/src/clock.rs:69-81 | two strings, 31 February and 3 March 2026, with the same build time |
| Clock.CorrectionIsAFloor | crates/plexos-init/src/clock.rs:102-104 | a correction never moves a clock back, never leaves it below the floor, and is idempotent |
| Cmdline.Parse | crates/plexos-init/src/cmdline.rs:114-151 | the word loop computes the specified reading, every error in the source's order |
| Cmdline.AnswersMean | crates/plexos-init/src/cmdline.rs:114-151 | every answer and when it is given: the slot and hash of the last words on them, the hash of 64 to 128 lower-case digits, the shell as the last word on it asks, or the first of them missing or malformed |
| Text.WordsSkip | crates/plexos-init/src/cmdline.rs:114-118 | white space before a word makes no word |
| Cmdline.AcceptedSaysItLast | crates/plexos-init/src/cmdline.rs:114-151 | an accepted line gives the slot and hash of the last word on each, the hash plausible |
| Cmdline.NoHashNoBoot | crates/plexos-init/src/cmdline.rs:141-144 | without a root hash no line is accepted |
| MountOptions.ParseOptions | crates/plexos-sys/src/mount.rs:71-82 | the loop computes the flags word and the text |
| MountOptions.BitsAreTheOptions | crates/plexos-sys/src/mount.rs:50-82 | a flag is set exactly when its option is among the fields |
| MountOptions.DataIsTheRest | crates/plexos-sys/src/mount.rs:50-82 | the text holds every other non-empty field as often as it was given, and no flag |
| MountOptions.TextHoldsTheRest | crates/plexos-sys/src/mount.rs:71-82 | the text splits at its commas into exactly those fields, and is empty when there are none |
| MountOptions.DataKeepsOrder | crates/plexos-sys/src/mount.rs:71-82 | the fields left keep their order |
| MountOptions.DataOfOne | crates/plexos-sys/src/mount.rs:71-82 | each field alone is left unless it is empty or names a flag |
| BootPlan.ContentsDecide | crates/plexos-init/src/state.rs:80-110 | for any contents of the file: apart from white space a number of 32 bits is the version, anything else counts as no file; none means a new state, an equal one nothing, an older one a migration and a newer one a rollback |
| BootPlan.StampDecides | crates/plexos-init/src/state.rs:90-110 | a stamp that was written is read back; only an older one asks for a migration and only a newer one is a rollback |
| BootPlan.BuildPlan | crates/plexos-init/src/plan.rs:239-396 | the builder appends the specified plan |
| BootRun.Executor.Apply | crates/plexos-init/src/execute.rs:102-152 | the effect of each state action |
| BootRun.Executor.Perform | crates/plexos-init/src/execute.rs:250-351 | the effect of each step on the mounts, what each mount was made of at that moment, and whether what the step acted on was there, whatever the outside world answers |
| BootRun.Executor.Execute | crates/plexos-init/src/execute.rs:365-393 | every step in order, stopping at the first failure |
| BootSafety.FirstFailureEnds | crates/plexos-init/src/execute.rs:365-393 | a failed run succeeded in every step before the failing one and is left as that step left it |
| BootSafety.SwitchMeansVerified | crates/plexos-init/src/plan.rs:231-396 | from any machine whose mount points are directories, whatever fails, no step is blind unless another file system stands on one of the kernel's mount points at the start, and the switch happens exactly when every step succeeds. It is then to `/sysroot` and its own init; `/usr` is read-only, nodev and nosuid and was mounted from a verity device on the slot's two labelled partitions with the last root hash; the overlay on `/etc` was made of that mount and of the labelled `/var` still in place, writable, nodev and nosuid; the clock came from that `/usr` and a new state's version was written on that `/var`; the root has its tmpfs, `/tmp` and four links with their targets; and devtmpfs, devpts, proc, sysfs, cgroup2 and tmpfs are each in their place with their options, or are what was mounted there before |
| BootSafety.AssemblyIsSafe | crates/plexos-init/src/plan.rs:239-396 | the same for any parsed arguments, with the whole root as assembled |
| BootSafety.UsrBeforeVerity | crates/plexos-init/src/plan.rs:231-280 | with `/usr` mounted before its device is opened, and none there, a run fails at once or is blind to its end |
| BootSafety.EtcBeforeVar | crates/plexos-init/src/plan.rs:231-396 | an overlay made before `/var` is mounted is never one on the `/var` mounted later |
| BootSafety.MigrateNeverSwitches | crates/plexos-init/src/execute.rs:115-133 | a missing migration stops the run no later than the state step |
| BootSafety.RollbackRunsLikeProceed | crates/plexos-init/src/execute.rs:135-150 | with a rollback every run ends exactly as with current state |
| BootSafety.OnlyMigrationStopsAGoodBoot | crates/plexos-init/src/execute.rs:250-351 | where every step gets what it needs the switch happens exactly when no migration is missing; a link already there, a mount found in place and the clock stop nothing |
| BootSafety.FoundIsAnAnswer | crates/plexos-sys/src/device.rs:349-377 | what the label wait gives is an answer the boot theorems allow |
| Device.DescribedMeans | crates/plexos-sys/src/device.rs:58-82 | a description is of a labelled partition exactly when its last lines on device and label say so; each field is what the last line of its own key says, apart from white space, the identifier in lower case or empty |
| Device.ParseUevent | crates/plexos-sys/src/device.rs:58-82 | the line loop gives the last value of each key |
| Device.DiskOfInvertsNaming | crates/plexos-sys/src/device.rs:113-119 | the disk of a partition is the one it was named after, exactly unless the disk's name ends in a digit and a p |
| Device.DisksAreToldApart | crates/plexos-sys/src/device.rs:113-119 | partitions of different such disks are told apart |
| Device.Wait | crates/plexos-sys/src/device.rs:295-423 | the poll loop ends; it gives the first scan that shows the partition, and nothing only when none did and the deadline passed |
| Device.Resolve | crates/plexos-sys/src/device.rs:349-377 | labels are waited for, every other path is left alone |
| Device.NeverAnotherDisk | crates/plexos-sys/src/device.rs:385-423 | with a known boot disk the answer is that disk's partition of that label, from the first scan that shows one |
| Device.OtherDisksDoNotMatter | crates/plexos-sys/src/device.rs:197-205 | what a scan shows of other disks makes no difference |
| Device.TheRace | crates/plexos-sys/src/device.rs:349-377 | another installation's partition enumerated first is taken without a known disk and passed over with one |
| Verity.ToHex | crates/plexos-sys/src/verity.rs:136-144 | the loop writes two digits a byte |
| Verity.HexIsInverted | crates/plexos-sys/src/verity.rs:136-144 | the bytes are recovered from their hexadecimal text, which is a single field |
| Verity.ParseInvertsFormat | crates/plexos-sys/src/verity.rs:156-220 | a superblock written to the on-disk format is accepted exactly when both block sizes are powers of two, there is a block and the algorithm is named, and every field is read back |
| Verity.SuperblockAnswers | crates/plexos-sys/src/verity.rs:156-220 | every answer on any bytes and when it is given, field by field at its offset: too short, wrong signature, wrong version, a field refused, or the superblock |
| Verity.PowersOfTwo | crates/plexos-sys/src/verity.rs:180-186 | the block sizes that are accepted are the powers of two |
| Verity.AcceptedIsUsable | crates/plexos-sys/src/verity.rs:156-220 | an accepted superblock, from any bytes, has usable sizes and a salt and algorithm fit for the table line |
| Verity.LineSplitsIntoTen | crates/plexos-sys/src/verity.rs:233-244 | for fields without spaces and nulls the line splits into exactly the ten arguments, an absent salt included |
| Mapper.WriteHeader | crates/plexos-sys/src/dm.rs:117-128 | the fixed header at the start of a zeroed buffer |
| Mapper.TableLoadBuffer | crates/plexos-sys/src/dm.rs:133-162 | header, one target spec, parameters and padding |
| Mapper.PayloadIsAligned | crates/plexos-sys/src/dm.rs:108-110 | the payload ends on a multiple of eight |
| Mapper.PayloadReadsBack | crates/plexos-sys/src/dm.rs:133-162 | a walker that follows the start and next fields finds one target, its length, type and parameters, ending at the end of the buffer |
| Mapper.KernelSeesTheSuperblock | crates/plexos-sys/src/verity.rs:156-249 | from an accepted superblock to the ten arguments the walker sees |
| Mapper.NameReadsBack | crates/plexos-sys/src/dm.rs:117-162 | the kernel reads the device's name back from the payload |
| Mapper.TableIsReadOnly | crates/plexos-sys/src/dm.rs:95-148 | the table is loaded with the read-only flag |
| Mapper.SplitInvertsEncode | crates/plexos-sys/src/dm.rs:172-185 | on 32 bits, the masks and shifts give back every twelve-bit major and twenty-bit minor |
| Mapper.EncodeInvertsSplit | crates/plexos-sys/src/dm.rs:172-185 | and every 32-bit device number encodes from what it is split into |
| Mapper.DeviceNumbersReadBack | crates/plexos-sys/src/dm.rs:172-185 | through the eight bytes of the field: the pair the kernel wrote is the pair read, whatever the upper half holds |

## Left out

- Page-cache reordering and fsync: the install code never syncs, so a stop is the death of the
  process with its effects kept in program order.
- Concurrent provisioning: a plan is made from one listing, and nothing locks the directory.
- Version strings containing `/`: names are taken as file names, as the original's callers do.
- Scratch files of the package check (`.signature`, `.measure-*`, `.control.tar.xz`) and errors in
  removing them.
- `sha256sum`'s escaping of unusual file names, and the text of every message and log line.
- Guids.GuidBytes: a character stands for one byte, so text outside ASCII, on which the original may
  also panic inside a character, is simply refused.
- GptPlan.Plan: products are unbounded integers; on a disk whose size in bytes fits in 64 bits none
  of the original's products overflows. The theorems of `GptReader` assume that size.
- Supervise.Supervisor.Tick: time is assumed at least 30 s from the end of its 64-bit range, so that
  the saturating additions are exact; a spawned process is assumed not to be live or unreaped
  already; the set of processes does not grow while children are being collected. Services are named
  by their place in the table, and how a process is actually started is not modelled.
- Clock.LaterVersionIsLater: restricted to real dates, since the range check lets others through (see
  Clock.UnrealDateSpills).
- Clock.BuildTimeIsPosix: from 1970 on, as the POSIX formula is defined.
- Install.AppsDirectory.Perform: an operation that fails for a reason outside the directory, the
  package and the two programs counts as an interruption.
- BootSafety.SwitchMeansVerified: takes the state action as an input. The original reads the state
  version before the plan mounts `/var` (`crates/plexos-init/src/main.rs:336-343`), so nothing here
  says the action reflects that `/var`. Path components are an enumeration of the names in the plan,
  and a step that fails leaves its directory unmade.
- Which disk was booted is an input. The original asks before the plan mounts sysfs
  (`crates/plexos-init/src/execute.rs:365-384`), where reading the block devices may fail and leave
  the answer unknown; the theorems cover both cases.
- Device.Wait: scans are given in device-name order, as `labelled_partitions` sorts them; reading
  the loader's EFI variable is left out.
- Mapper.TableLoadBuffer: little-endian machines, names shorter than 128 bytes (checked by
  `create_verity`) and target types shorter than 16; `iowr` request numbers are left out.
- Mapper.KernelSeesTheSuperblock: the sector count is assumed to fit in 64 bits, where the
  original's product would overflow, and the payload to be shorter than 4 GiB.
- The image mount plan, `resolve_current` and `version_at` of `mount.rs`, `render`,
  `os_release_value`, `booted_partuuid`, and the `loop` device attachment: easy members.
- System calls and external programs: their results are arbitrary functions or free choices.
- The crates `plexos-gpu`, `plexosd` and the update, configuration, cgroup, tools and console code:
  message text, schemas and constants.
