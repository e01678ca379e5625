# Verified model of the fota-secure update pipeline

This project models, in Dafny, both halves of fota-secure: the packager that turns a directory of
firmware files into a signed and encrypted package, and the device program that checks, opens and
installs it. Bytes are explicit everywhere: the 51-byte header, the ustar blocks, the JSON text of
manifest.json and the version file are all printed and parsed byte for byte, and each parser is proved
against a printer.

What is proved, in short:

- **Round trip of the whole pipeline.** Packing a tree of files and running the device on the package
  installs exactly those files, over whatever was installed before, and records the version
  (`EndToEnd.PackedFilesAreInstalled`); in an empty directory the extraction half is exact if and only if
  no source file is called manifest.json. Repeating a failed update ends as an undisturbed one would have,
  if and only if the failure was not a version write torn so that the device opens the version file and
  reads no version in it (`EndToEnd.RepeatingCuresFailure`).
- **Authenticity.** When the signature check accepts only what was signed, nothing but the files of those
  releases, and directories on the way to them, ever reaches the disk, over every history
  (`EndToEnd.HistoryIsAuthentic`).
- **Each format is inverted.** ustar members and octal fields, JSON strings and the manifest list,
  version texts, the package framing. The manifest theorem is total: it says for every input whether
  the printed text is read back, and what happens otherwise.
- **The manifest check is exact.** Deciding by counts is the documented set equality if and only if the
  listed paths are distinct and omit manifest.json; a family of archives shows what is accepted otherwise.
- **What is refused is exact.** Every parser and every check is settled on all bytes, both ways, in terms
  of the bytes themselves: the accepted archives are a chain of sound headers up to a zero block, the
  accepted manifests an explicit grammar, and each error and each exit code from 2 to 9 has the condition
  under which it is returned (`TarLaws.AcceptedIsExact`, `ManifestGrammar.ManifestIsExact`,
  `InstallerLaws.ValidateIsExact`, `Refusals.RefusalsAreExact`).
- **Bounds and confinement on arbitrary input.** Tar entries lie in the buffer and are disjoint, the
  wrap test is exact in 64-bit arithmetic, and every file operation stays under the install directory.
- **Decompression refines whole-stream inflation** under the contract of zlib's `inflate`.
- **Histories.** Nothing is written before signature, unwrap, decryption and validation. What a run does
  to the installed version is known exactly (`DeviceLaws.RunRecordsVersion`, `DeviceLaws.RunLowersIff`):
  it falls by the override secret, by a version file that cannot be opened, or by a torn version write, a
  run is given for each, and every decrease in a history has the run that made it. After a torn write a
  device may install nothing more as long as its version file can be opened. Reinstalling is a no-op
  exactly when the version file can be opened or the version is 0.0.0.0.

## How it is organised

| file | contents |
|---|---|
| Bytes.dfy, Results.dfy, Counting.dfy | bytes, C strings, splitting at a separator; result codes; counting lemmas |
| Paths.dfy | the path scan, and lexical walks through a directory tree |
| TarFormat.dfy, TarLaws.dfy, TarWriter.dfy | ustar reader, what holds of it on any input, ustar writer and round trip |
| ManifestFormat.dfy, ManifestGrammar.dfy, ManifestWriter.dfy | reader of the "files" list; the language it accepts; printer of manifest.json and round trip |
| ManifestCheck.dfy | hexadecimal digests and the cross-check of archive and manifest |
| Decompression.dfy | the capped inflate loop |
| Disks.dfy, Installer.dfy, InstallerLaws.dfy | file system, installation pipeline, confinement, and what an installation makes of the tree it finds |
| Versions.dfy, Blobs.dfy | version texts, file and downgrade rule; package framing on both sides |
| Device.dfy, DeviceLaws.dfy | the device program as a step, and laws of runs and histories |
| Refusals.dfy | every exit code in terms of the package's bytes |
| Packager.dfy, Sizes.dfy, EndToEnd.dfy | the packager's stages, how large their results get, and the theorems across both halves |

The parts that update state step by step in C or Python are methods with loops, arrays and objects,
each proved equal to a specification function; the laws are lemmas about those functions. Cryptography,
SHA-256, gzip and `inflate`, allocation and hardware faults are parameters: functions about which
nothing is assumed but what a lemma states. `Paired` and `Awaits` say that the packager's keys and the
device's belong together, for this package (verify after sign, unwrap after wrap, decrypt after
encrypt); `ObeysZlib`, `Streams` and `Complete` are the contract of `inflate`, for the input the loop
passes on, whose length the code cuts to 32 bits; a `FaultPlan` says which file operation fails and how.

Where the documentation promises more than the code does, or leaves it open, the model follows the code:

- installer.h promises exact set equality of manifest and archive; the code compares two counts, which
  is the same only for listings with distinct paths that omit manifest.json.
- A version file that exists but cannot be opened counts as 0.0.0.0 (consumer/src/version.c:88-91) and so
  lets any version above 0.0.0.0 pass, which is one of the ways in which a version falls.
- The size limit is documented as a maximum; a stream of exactly that size may be refused.

## Model

| member | source | states |
|---|---|---|
| EndToEnd.PackedFilesAreInstalled | packager/fota_secure/cli.py:48-69 | End to end: a tree of files, packed and handed to a device that awaits it, is installed over whatever the install directory holds: the old tree is left with exactly these files and their directories set, an empty directory with exactly these files in it; exit 0 and a readable version when the version write works |
| EndToEnd.RepeatingCuresFailure | consumer/src/main.c:290-308 | Whatever faults make an update exit other than 0, the version write included, the exit of an undisturbed second run is known exactly; the device ends with the tree and version of an undisturbed update if and only if a torn version write has not left the version file, which the device can open, without a readable version, and in that case nothing changes |
| EndToEnd.OnlyReleasesAreInstalled | consumer/src/main.c:226-304 | Authenticity: if the device's key accepts only what was signed for given packaging runs, any run on any package under any faults writes nothing, or only files of one of those releases, from their start and at their places; if it installs, all of them, under that release's version |
| EndToEnd.HistoryIsAuthentic | consumer/src/main.c:226-304 | Over every history: each place of the tree is as it was, or a directory on the way to a released file, or the start of a released file at its place |
| EndToEnd.SecretLowers | consumer/src/version.c:190-206 | A downgrade by secret is real: every shippable release older than any installed version has a device and a run that exits 0 and lowers the version |
| EndToEnd.UnopenableFileLowers | consumer/src/version.c:88-91 | The same without any secret when the version file cannot be opened |
| EndToEnd.TornUpgradeLocksOut | consumer/src/version.c:144-152 | An upgrade without any secret whose version write is cut inside the first three parts exits 1, leaves no readable version, and no later history changes anything while the file can be opened |
| EndToEnd.EveryReleaseHasItsDevice | packager/fota_secure/cli.py:48-69 | The hypotheses can be met: for every shippable release, installed version, secret and version file fault there are a packager and a device that satisfy them all, wherever the version rule lets the release pass |
| EndToEnd.ModestTreesAreShippable | packager/fota_secure/tarball.py:29-40 | A proper tree is within all limits of packager and device when its contents, paths and build texts, at stated fixed costs a file, stay below the decompression cap |
| EndToEnd.ExtractRestoresIff | consumer/src/installer.c:712-765 | Staging printable, normalised, prefix-free paths and extracting into an empty directory leaves exactly those path-to-bytes pairs if and only if no source file is called manifest.json |
| EndToEnd.ExtractRestoresFiles | consumer/src/installer.c:712-765 | Extracting a staged tree over any tree, without faults: OK if and only if no target is a directory and no file is on the way to one, an I/O error otherwise; the old tree is left with exactly these files and directories set, an empty directory with exactly these files |
| EndToEnd.ExtractIsPartial | consumer/src/installer.c:740-760 | Under any faults and with any memory refused, extracting a packed tree changes only places of its files, to the start of these files, and places on the way to them, to directories; when it reports success it has set exactly these |
| EndToEnd.StagedArchiveValidates | consumer/src/installer.c:726-738 | A staged archive validates exactly when no build text misleads the search for the file list and all paths are printable; otherwise it is a manifest parse error |
| EndToEnd.StagedIsParsed | packager/fota_secure/tarball.py:29-38 | The staged archive parses to the files in walk order followed by the manifest member |
| EndToEnd.StagedManifestParses | packager/fota_secure/manifest.py:54-65 | The manifest text of a build is read back as its list of paths and hexadecimal digests, exactly under the same two conditions |
| EndToEnd.StagedCheck | consumer/src/installer.c:566-657 | On the staged entries the manifest check answers OK or parse error by those conditions alone: every record matches its own entry and the counts agree |
| EndToEnd.ReleaseIsSearchable | packager/fota_secure/manifest.py:59-64 | The four fixed keys never mislead the search, so only the four values matter |
| EndToEnd.SourceManifestIsLost | consumer/src/installer.c:746-754 | Over any tree, under any faults and whatever the outcome, a source file called manifest.json is never installed: its place stays exactly as it was |
| EndToEnd.SourceManifestDecides | consumer/src/installer.c:572-656 | A source file called manifest.json takes the generated one's place: the archive validates exactly when that file parses and lists as many records as there are other files, each with the path and digest of a file of the tree; else parse error or mismatch |
| EndToEnd.ManifestIsNeverInstalled | consumer/src/installer.c:740-757 | Over any tree and under any faults, no file is written to the manifest's place: it stays as it was or becomes a directory |
| EndToEnd.PackedSections | packager/fota_secure/cli.py:54-66 | The device finds in a packed package the padded texts, the IV, the wrapped key, the ciphertext, and the signature of exactly the bytes it rebuilds |
| EndToEnd.PackedIsAdmitted | consumer/src/main.c:148-224 | A packed package for the configured platform that is newer than the version seen, or older with the secret, and fits the free space, passes all checks before cryptography |
| Decompression.Decompress | consumer/src/installer.c:17-98 | `fota_gunzip`: returns what the iteration specification says; the buffer never outgrows the cap |
| Decompression.InflateAll | consumer/src/installer.c:47-92 | The loop with its growing buffer, terminating by unread input plus output still allowed |
| Decompression.InflateOnce | consumer/src/installer.c:46-92 | One iteration of the loop on the buffer is one iteration of the specification: more output, the end, or an error |
| Decompression.MakeRoom | consumer/src/installer.c:48-71 | A full buffer is doubled up to the cap; at the cap the answer is too-large, before any further allocation |
| Decompression.InflateInto | consumer/src/installer.c:73-78 | One inflate call appends its output behind the bytes already there, within the room cut to `unsigned int` |
| Decompression.Iterate | consumer/src/installer.c:47-92 | One iteration keeps the capacity between the output and the cap and decreases the termination measure |
| Decompression.GunzipStarts | consumer/src/installer.c:17-43 | An empty input or a cap of 0 is an invalid argument; otherwise the loop starts with 65536 bytes or the cap, unless that is refused |
| Decompression.LoopGoesOn | consumer/src/installer.c:46-92 | Every way one iteration can end, by what the allocator and inflate answer: too large, failed, complete, or the loop again with what is left |
| Decompression.GunzipRefinesInflation | consumer/src/installer.c:17-98 | Success returns exactly the whole stream; too-large is said only of a stream that reaches the cap; when the allocations the stream needs succeed, a complete stream below the cap is accepted and one above it is reported as too large |
| Decompression.LoopIsSound | consumer/src/installer.c:47-97 | From any loop state that holds a prefix of the stream: the outcome is the stream, or an honest error |
| Decompression.LoopIsComplete | consumer/src/installer.c:47-97 | From any such state a complete stream below the cap is delivered and one above it is too large, if allocation succeeds up to the largest buffer that stream can make the loop ask for |
| Decompression.ExactCapIsUndetermined | consumer/src/installer.c:48-58 | With a cap of exactly the stream's length, whatever that is below 2^32, two inflaters that both meet zlib's contract part: one stream is accepted, the other reported too large |
| Decompression.DeliveringIsComplete | consumer/src/installer.c:73-90 | The contract asked of zlib can be met: two concrete inflaters satisfy it for every stream |
| Paths.TarPathIsSafe | consumer/src/installer.c:102-127 | The scan accepts if and only if the path is non-empty, not absolute and has no component equal to `..` |
| Paths.SafePathIsExact | consumer/src/installer.c:102-127 | The same without splitting: not empty, no leading separator, and nowhere two dots with a separator or an end of the path on both sides |
| Paths.SafePathStaysInside | consumer/src/installer.c:102-127 | A safe path, and each prefix of it that ends at a separator, never leads out of any base directory at any component |
| Paths.WithoutDotDotStaysInside | consumer/src/installer.c:112-125 | Without a `..` component no intermediate step of a walk leaves its base |
| Paths.ResolveUnder | consumer/src/installer.c:664-665 | The text `dir/rel` leads where walking the components of rel from dir leads |
| Paths.NormalisedIsSafe | consumer/src/installer.c:102-127 | Every path of proper names passes the scan |
| TarFormat.ParseOctalField | consumer/src/installer.c:165-189 | The loop returns the value, in size_t arithmetic, of the one digit run between padding, and fails on every field without that layout |
| TarFormat.OctalLayoutUnique | consumer/src/installer.c:170-183 | A field has at most one layout of padding, digits, padding |
| TarFormat.OctalFieldBound | consumer/src/installer.c:276-280 | A field of at most twelve digits is below 8^12, so reading it never wraps |
| TarFormat.ComputeHeaderChecksum | consumer/src/installer.c:191-203 | The loop sums the 512 bytes with the checksum field read as spaces |
| TarFormat.IsAllZero | consumer/src/installer.c:153-161 | True exactly on blocks of zeros |
| Bytes.BoundedStrlen | consumer/src/installer.c:145-151 | The length of the bytes before the first NUL within the bound |
| TarFormat.ReadHeader | consumer/src/installer.c:230-283 | The header checks in their order: checksum, prefix, path safety, type flag, size; an accepted name is safe, NUL-free and at most 100 bytes. What that order accepts and refuses is TarLaws.HeaderIsExact |
| TarFormat.OverflowTestIsExact | consumer/src/installer.c:285-293 | `next_offset < offset` holds exactly when the true sum does not fit 64 bits, and otherwise the computed offset is the true one |
| TarFormat.TarStep | consumer/src/installer.c:218-293 | One iteration: rejection, end of archive, or one entry whose padded data end inside the buffer |
| TarFormat.Grow | consumer/src/installer.c:295-307 | A full array is doubled and keeps its contents |
| TarFormat.TarParse | consumer/src/installer.c:205-324 | `fota_tar_parse`: the filled array is the entry list of the specification, and every error leaves it empty |
| TarLaws.EntriesAreInBounds | consumer/src/installer.c:218-314 | On any bytes: accepted entries lie in the buffer, block-aligned, in increasing order, pairwise disjoint, with safe paths |
| TarLaws.HeaderIsExact | consumer/src/installer.c:230-283 | A block that is not zero is accepted as this entry if and only if its checksum field is the sum of its bytes with that field as spaces, bytes 345 to 499 are zero, the name is safe, and the type flag is '0' or NUL with the size of the size field, or '5' with a readable size field, counted as 0; it is malformed, unsafe or unsupported if and only if the first condition to fail is checksum or size, prefix or type, name |
| TarLaws.SumIsAdditive | consumer/src/installer.c:191-203 | The sum adds up over the parts of a block and is the byte itself on a single byte, which fixes it |
| TarLaws.StepIsExact | consumer/src/installer.c:218-293 | The same of one iteration anywhere in a buffer: entry, end, or each refusal, with the bounds of header and data |
| TarLaws.AcceptedIsExact | consumer/src/installer.c:205-324 | On any bytes: `fota_tar_parse` returns these entries if and only if they form a chain, each with a sound header in front of its data and the next one at the padded end, up to a zero block |
| TarLaws.RefusedIsExact | consumer/src/installer.c:218-321 | On any bytes: it fails with this code if and only if such a chain leads to a block with exactly this fault, an incomplete block among them |
| TarLaws.OctalFieldReads | consumer/src/installer.c:165-189 | An octal field is read as the value of its digits, whatever padding precedes them and whatever follows the NUL or space after them |
| TarLaws.OctalFieldNeedsDigits | consumer/src/installer.c:176-186 | And only such fields are read: padding, at least one octal digit, and then a NUL, a space or the end of the field |
| TarLaws.SuffixIsIgnored | consumer/src/installer.c:225-228 | Bytes after the first zero block never change the result |
| TarLaws.TruncationIsRejected | consumer/src/installer.c:219-222 | Every prefix of an accepted archive that ends before its zero block is complete is malformed, with no entries |
| TarLaws.TruncatedArchiveIsRejected | consumer/src/installer.c:316-321 | The same for every archive the packager writes |
| TarLaws.EndOfWritten | packager/fota_secure/tarball.py:29-38 | The first zero block of a written archive comes right after its members |
| TarWriter.OctalRoundTrip | consumer/src/installer.c:165-189 | A printed octal field of at most twelve digits is read back as the number printed, whatever follows its terminator |
| TarWriter.HeaderRoundTrip | packager/fota_secure/tarball.py:29-38 | A written ustar header is read as exactly the file it was written for, including 100-byte names without NUL; its checksum fits six octal digits |
| TarWriter.HeaderLayout | packager/fota_secure/tarball.py:29-38 | Where the fields of a written header stand, and that its sum is that of the header with the checksum field blank |
| TarWriter.WrittenFields | packager/fota_secure/tarball.py:29-38 | Every field of a written header at its bytes: the five numbers read back, type flag '0', magic ustar and version 00, the owner names, the device fields, zeros for link name and prefix |
| TarWriter.MemberAt | packager/fota_secure/tarball.py:30-33 | The k-th member's header and contents stand at its offset in any buffer that starts with the members |
| TarWriter.ReadFrom | consumer/src/installer.c:218-314 | Reading from the k-th member on yields the k-th and later files in order |
| TarWriter.TarRoundTrip | consumer/src/installer.c:205-324 | Members and one zero block, whatever comes after, parse to exactly the written files, in order and with their contents |
| TarWriter.ArchiveRoundTrip | packager/fota_secure/tarball.py:29-40 | The same for the complete archive, whose length is a whole number of records |
| ManifestFormat.SkipJsonWhitespace | consumer/src/installer.c:405-411 | Moves to the first byte that is not JSON white space |
| ManifestFormat.ExtractJsonString | consumer/src/installer.c:366-403 | Reads a string into the buffer, NUL-terminated, exactly when the specification reads one that fits; the new position is just after the closing quote |
| ManifestFormat.ReadCharacters | consumer/src/installer.c:374-397 | The characters up to the closing quote are stored unescaped and in order, or the string is one the specification refuses |
| ManifestFormat.ReadCharacter | consumer/src/installer.c:375-393 | One character, unescaping only quote, backslash and slash; any other escape fails the string |
| ManifestFormat.ParseField | consumer/src/installer.c:485-517 | One key/value pair: only path and sha256, compared up to the first NUL, a hash of exactly 64 characters |
| ManifestFormat.ParseObject | consumer/src/installer.c:470-518 | The inner loop terminates and returns the fields at the closing brace |
| ManifestFormat.ReadRecords | consumer/src/installer.c:444-539 | On any bytes: every accepted record has a path of at most 255 bytes and a NUL-free hash of exactly 64 |
| ManifestFormat.ParseListStep | consumer/src/installer.c:445-523 | One iteration of the outer loop |
| ManifestFormat.ParseRecords | consumer/src/installer.c:444-541 | The outer loop terminates, fills a growing array, and hands back an empty one on every failure |
| ManifestFormat.FindFilesKey | consumer/src/installer.c:418-430 | The raw search finds the first occurrence of the seven bytes of the key |
| ManifestFormat.ParseManifestFiles | consumer/src/installer.c:413-542 | `parse_manifest_files`: the records of the specification, or a parse error and no records |
| ManifestGrammar.ManifestIsExact | consumer/src/installer.c:413-542 | On any bytes: the reader returns these records if and only if the text is one of an explicit grammar that denotes them: anything up to the first occurrence of the key, white space, a colon, a bracket, then commas and objects of the two keys in any order and number, the later winning, up to the closing bracket, then anything. Every other text is a parse error |
| ManifestGrammar.LayoutIsRead | consumer/src/installer.c:413-542 | Every text of the grammar is read, as the records it denotes |
| ManifestGrammar.ReadIsLayout | consumer/src/installer.c:413-542 | Every text that is read has such a layout |
| ManifestWriter.StringRoundTrip | consumer/src/installer.c:366-403 | A printed string literal is read back if and only if it is printable and fits; the reader stops just after the closing quote whatever follows |
| ManifestWriter.QuotedIsJson | packager/fota_secure/tarball.py:35 | Whatever its bytes, a printed string is a JSON string of section 7 of RFC 8259 for exactly that value, by an independent reader of that grammar |
| ManifestWriter.ObjectRoundTrip | consumer/src/installer.c:470-523 | A printed list object is read back as its record, or fails the list if the device cannot hold it |
| ManifestWriter.ItemsRoundTrip | consumer/src/installer.c:444-539 | The printed items are read back in order, or not at all |
| ManifestWriter.ListRoundTrip | packager/fota_secure/tarball.py:35 | The printed array after the key is read back as the same list, or not at all |
| ManifestWriter.SearchQuoted | consumer/src/installer.c:418-430 | The search passes over a string literal unless its value is `files` or ends in a quote and `files`; then it stops at the closing quote |
| ManifestWriter.SearchFields | consumer/src/installer.c:418-442 | A misleading field before the list makes the reader give up; all others are passed over |
| ManifestWriter.ManifestRoundTrip | consumer/src/installer.c:413-542 | On all inputs: the printed manifest is read back as its list when no earlier field misleads the search and every record is readable, and is a parse error otherwise |
| ManifestCheck.BytesToHexLower | consumer/src/installer.c:544-552 | Writes two lower-case digits a byte and a terminator |
| ManifestCheck.HexIsLowerCase | consumer/src/installer.c:544-552 | The two digits of each byte, the high half first, from `0` to `9` and lower-case `a` to `f` |
| ManifestCheck.HexIsInjective | consumer/src/installer.c:544-552 | Equal hexadecimal texts mean equal bytes; the text is printable and NUL-free |
| ManifestCheck.FindEntry | consumer/src/installer.c:554-564 | The first file entry of the given name |
| ManifestCheck.FirstFile | consumer/src/installer.c:608-616 | The result is the first file entry of the name, and there is none when it is None |
| ManifestCheck.CountPayload | consumer/src/installer.c:589-596 | Counts the file entries other than the manifest |
| ManifestCheck.MatchRecord | consumer/src/installer.c:605-640 | A record matches when the first file entry of its path has its digest |
| ManifestCheck.VerifyManifest | consumer/src/installer.c:566-657 | `fota_verify_manifest` with its written but never read match marks: the verdict of the specification, which ManifestCheck.VerdictIsExact settles |
| ManifestCheck.VerdictIsExact | consumer/src/installer.c:566-657 | Over any entries: missing if and only if no file entry is called manifest.json; parse error if and only if the text of the first one is not a manifest; OK if and only if that text lists as many records as there are other file entries and the first file entry of each record's path has its digest; mismatch if and only if it is a manifest that does not |
| ManifestCheck.CheckIsExact | consumer/src/installer.h:99-104 | When listed paths are distinct and omit the manifest, the check accepts if and only if payload paths are distinct and the listed path/digest pairs are exactly those of the payload |
| ManifestCheck.AcceptanceIsExactIffProper | consumer/src/installer.c:604-656 | On any listing: acceptance means the documented set equality if and only if the listed paths are distinct and omit the manifest |
| ManifestCheck.AgreementIsExact | consumer/src/installer.c:604-653 | The pigeonhole: as many distinct matched paths as payload files leave no file unlisted |
| EndToEnd.RepeatedPathHidesFile | consumer/src/installer.c:604-656 | Every archive of two different files whose manifest lists the first twice validates, for every hash function, although the second is not listed |
| Counting.ElementsSize | consumer/src/installer.c:642-653 | A list has as many distinct elements as entries exactly when nothing repeats |
| Installer.EnsureParentDirs | consumer/src/installer.c:661-683 | Creates the directory of every prefix that ends at a separator, stopping at the first failure |
| Installer.WriteEntryFile | consumer/src/installer.c:685-710 | Refuses over-long paths, creates the parents, writes the file |
| Installer.InstallEntry | consumer/src/installer.c:745-759 | One entry: written if it is payload, passed over if it is a directory or the manifest |
| Installer.InstallEntries | consumer/src/installer.c:740-758 | Writes the payload entries in order, skipping directories and the manifest, stopping at the first failure |
| Installer.Validate | consumer/src/installer.c:726-738 | The verdict before anything is written; OK only for a parsed archive, in bounds, whose manifest check is OK |
| Installer.InstallerExtract | consumer/src/installer.c:712-765 | `fota_installer_extract`: decompress, parse, check, and only then write; the code of each failure is settled by InstallerLaws.ExtractIsExact |
| InstallerLaws.ValidateIsExact | consumer/src/installer.c:726-738 | Over any bytes: validation is OK if and only if the archive is a chain of sound entries whose first manifest.json lists the others; each of the six refusals has its own condition on the same bytes |
| InstallerLaws.ExtractIsExact | consumer/src/installer.c:712-765 | For a payload that inflates to an archive: an empty payload is an invalid argument, an archive above 512 MiB too large, one below it leaves with the code of the refusal that applies and the disk as it was, and is accepted, up to write errors, if and only if it is valid |
| InstallerLaws.InflationErrorIsReported | consumer/src/installer.c:721-726 | A failed inflation leaves with its own code and the disk as it was |
| InstallerLaws.OpensExactlyThePlan | consumer/src/installer.c:740-760 | Under any faults the files opened are the regular files other than manifest.json, in order, below the install directory: all of them on success, those up to the stop otherwise; directory entries open nothing |
| InstallerLaws.PathLimitIsExact | consumer/src/installer.c:685-696 | A path of 4096 bytes or more is refused before anything is created; one of 4095 is not |
| InstallerLaws.ExtractIsConfined | consumer/src/installer.c:661-710 | On any payload and under any faults: every directory created and file opened stays under the install directory at each component, and nothing else in the tree changes |
| InstallerLaws.InstallationIsConfined | consumer/src/installer.c:740-758 | The same for the writing loop from any entry on |
| InstallerLaws.RejectionLeavesDisk | consumer/src/installer.h:108-111 | Nothing is written unless decompression, parsing and the manifest check all succeed |
| InstallerLaws.EntryIsInstalled | consumer/src/installer.c:685-710 | Without faults a file is written exactly when its place is free; then it and the directories on the way to it are there, and nothing else has changed |
| InstallerLaws.ParentsAreTheWay | consumer/src/installer.c:669-681 | The scan for separators makes the directories on the way component by component, and stops where something other than a directory stands |
| InstallerLaws.InstallationOverlays | consumer/src/installer.c:740-762 | Installing a proper tree over any tree, without faults: it succeeds if and only if no target is a directory and no file is on the way to one, and the tree is then the old one with exactly these files and directories set |
| InstallerLaws.RetryConverges | consumer/src/installer.c:740-762 | Whatever stopped the first installation and wherever, installing again without faults succeeds and ends in the tree an undisturbed installation would have made |
| InstallerLaws.SuccessIsFaultless | consumer/src/installer.c:755-759 | An installation that reports success met no fault: it is the undisturbed one |
| InstallerLaws.InstallationLeaves | consumer/src/installer.c:740-760 | Under any faults, a place that is neither a payload file's nor on the way to one stays exactly as it was |
| InstallerLaws.InstallationIsExact | consumer/src/installer.c:740-762 | The special case of an empty directory: it succeeds and leaves exactly the given files |
| Versions.VersionParse | consumer/src/version.c:11-65 | Accepts if and only if the bytes before the first NUL are four non-empty digit strings joined by dots, each at most 2^32 - 1, and returns those values |
| Versions.ParseIsExact | consumer/src/version.c:11-65 | The same without splitting: the text is four digit strings with three dots between them |
| Versions.ParseComponent | consumer/src/version.c:47-54 | The early exit rejects exactly the components past 2^32 - 1; the 64-bit accumulator never wraps |
| Versions.VersionCompare | consumer/src/version.c:67-78 | Part-by-part comparison is the order of the 128-bit numbers the parts form |
| Versions.NumberIsInjective | consumer/src/version.c:67-78 | Equal comparison means equal versions |
| Versions.VersionReadInstalled | consumer/src/version.c:80-126 | Reads the file through the 64-byte buffer and the trim: 0.0.0.0 where there is nothing, an error where it is malformed or too long |
| Versions.InstalledIsExact | consumer/src/version.c:80-126 | By the contents: no file, or only blanks, is 0.0.0.0; more than 64 bytes is an error; otherwise what precedes the blanks is parsed |
| Versions.BlanksAreIgnored | consumer/src/version.c:109-112 | Line feeds, carriage returns, spaces and tabs at the end never matter within the 64 bytes |
| Versions.VersionTextLength | consumer/src/version.c:134-142 | The printed text is at most 44 bytes, so it fits the 64-byte buffers |
| Versions.VersionFileRoundTrip | consumer/src/version.c:128-154 | Every version written is read back as itself |
| Versions.TextIsALine | consumer/src/version.c:134-142 | What is written is the four parts in decimal with dots between them, and one line feed |
| Versions.TornTextReads | consumer/src/version.c:128-154 | The first n bytes of a printed version read as 0.0.0.0, as nothing, or as the version with its last part cut, by where n falls; never as a higher version |
| Versions.DowngradeCheck | consumer/src/version.c:178-209 | The comparison and the secret in the order of the code: the decision that Versions.DowngradeIsExact settles |
| Versions.DowngradeIsExact | consumer/src/version.c:178-209 | Up to date if and only if the versions are equal; an older version is allowed if and only if there is a non-empty secret and the hash file is exactly its digest, and blocked otherwise |
| Blobs.HeaderRecord.Parse | consumer/src/header.c:5-29 | `fota_header_parse`: on success the caller's record holds the fields at their offsets, on failure it is unchanged |
| Blobs.HeaderIsExact | consumer/src/header.c:5-29 | On any bytes: the verdict in the order length 51, the four bytes FOTS, version 1, each if and only if, and the fields at their positions |
| Blobs.SplitIsExact | consumer/src/main.c:200-245 | On any bytes: a package splits if and only if it holds 307 bytes beside the wrapped key, and the sections and the signed bytes are those slices |
| Blobs.DeviceReadsAssembled | packager/fota_secure/blob.py:109-120 | The device finds every section of an assembled package again, and the bytes it checks are the bytes signed |
| Blobs.PackagerReadsAssembled | packager/fota_secure/blob.py:123-150 | So does the packager's own parser; texts come back exactly when they do not end in NUL |
| Blobs.HeadersAgree | packager/fota_secure/blob.py:78-106 | The two header parsers agree on every input; the packager's alone refuses non-ASCII texts |
| Blobs.SplitsAgree | consumer/src/main.c:202-211 | The device's and the packager's split agree on acceptance, boundaries and signed bytes, on every input with ASCII texts |
| Blobs.BuiltHeader | packager/fota_secure/blob.py:59-75 | A built header is 51 bytes, passes the device's checks and shows it the fields it was built from |
| Blobs.PackagerRefuses | packager/fota_secure/blob.py:50-121 | A header is built if and only if the texts are ASCII of at most 16 and 12 bytes, the IV has 16 and the key length fits 16 bits; a package is assembled if and only if header and signature have 51 and 256 bytes |
| Blobs.SignedDataIsUnique | consumer/src/main.c:235-245 | Equal signed bytes fix header, wrapped key and ciphertext; the packages then differ at most in the signature |
| Blobs.RebuildSignedData | consumer/src/main.c:235-245 | The three copies yield header, wrapped key and ciphertext in a row |
| Device.Machine.Admissible | consumer/src/main.c:148-245 | The checks up to the disk space check, in order, modifying nothing; what each refuses is Refusals.RefusalsAreExact |
| Device.Machine.Invoke | consumer/src/main.c:110-309 | `main` as one step on version file and disk, with the log of what was done in which order |
| DeviceLaws.RunIsGated | consumer/src/main.c:226-308 | A run writes nothing, or was authorised first and exits 0 or 1: signature, key and plaintext, and an archive that is a chain of sound entries whose manifest lists them; exit codes 2 to 9 leave version file and tree as they were |
| DeviceLaws.ExitCodesAreExact | consumer/src/main.c:148-288 | Exit codes 2 to 8 are returned exactly on their conditions, with the precedence of the checks |
| Refusals.RefusalsAreExact | consumer/src/main.c:148-288 | Exit codes 2 to 8, each if and only if, in terms of the package's own bytes, the secret and the hash file: 4 exactly when the header is sound and bytes 5 to 20 are not GENERIC padded with NULs, 6 exactly when the version is older and the hash file is not the digest of a non-empty secret |
| Refusals.InstallerExitsAreExact | consumer/src/main.c:86-108 | For an openable package: 9 if and only if the stream is above 512 MiB or its archive has one of the five other faults; 1 for a malformed archive and an empty payload; 0 only for a valid archive. A stream of exactly the limit is left open |
| Refusals.InstallingHasPassed | consumer/src/main.c:148-288 | A run that installs had the platform tag, an allowed version, all sections, room, a valid signature and a payload that decrypts, all in terms of the package's bytes |
| Refusals.LoweringNeedsTheSecret | consumer/src/version.c:178-209 | A run that exits 0, could open the version file and lowers the version was given a non-empty secret whose digest is the whole hash file |
| DeviceLaws.InstallerExitCodes | consumer/src/main.c:86-108 | An openable package exits 9 exactly on the six installer rejections, and 0 exactly when installation and the version write succeed |
| DeviceLaws.EveryWriteIsGated | consumer/src/main.c:247-304 | In every history each write is preceded, in the same run, by signature success over header, key and ciphertext, then unwrap, decryption and validation, in this order, of an archive whose manifest lists its files |
| DeviceLaws.RunRaisesVersion | consumer/src/main.c:160-198 | Exit 0 leaves the package's version installed, higher than before unless excused; other runs leave the version file alone |
| DeviceLaws.HistoryRaisesVersion | consumer/src/main.c:302-308 | Over every history without excuses the installed version never falls and rises with each run that exits 0 |
| DeviceLaws.RunRecordsVersion | consumer/src/main.c:290-308 | Of every run: the installed version changes exactly when the run installs, and then to the package's version or to what the torn text of it reads as; exit 0 exactly when it installs and the version write works |
| DeviceLaws.RunLowersIff | consumer/src/main.c:160-198 | A run lowers the installed version if and only if it installs and its version write falls below it; when it exits 0 and could open the version file, that is a downgrade, and the secret allowed it |
| DeviceLaws.UnreadableVersionLocksOut | consumer/src/main.c:168-174 | Once no readable version is installed, and while the file can be opened, every run of every history exits 1, 3 or 4 and changes nothing |
| DeviceLaws.EveryDecreaseIsExcused | consumer/src/version.c:178-209 | Every decrease between two points of a history has its witness between them: a run whose own step lowers the version, in one of the exact ways |
| DeviceLaws.TornWriteForgetsVersion | consumer/src/version.c:144-152 | An installing run whose version write is cut exits 1; cut to nothing it leaves 0.0.0.0, cut inside the first three parts no readable version |
| DeviceLaws.ReinstallIsNoOp | consumer/src/main.c:191-194 | After exit 0 the same package exits 2 if and only if the version file can be opened or the package's version is 0.0.0.0, and then changes nothing; otherwise it passes the version rule again |
| Packager.BuildManifest | packager/fota_secure/manifest.py:54-58 | The loop yields one record a file in walk order, with the hexadecimal digest of its contents |
| Sizes.ArchiveSize | packager/fota_secure/tarball.py:29-40 | The staged archive is at most the files' contents, 1024 bytes and 484 more a file, six bytes a path byte and text byte, and a fixed overhead |
| Sizes.ManifestSize | packager/fota_secure/tarball.py:35 | The manifest text is at most six bytes a path byte and text byte, 484 a listed file and 340 more |
| Packager.StageArchive | packager/fota_secure/tarball.py:29-40 | The loop writes the ustar archive of its members |

## Left out

- 32-bit targets: `size_t` is fixed at 64 bits; with 32 bits the twelve-digit size field would wrap before the overflow test.
- RSA, AES-CBC, SHA-256, zlib's `inflate` and gzip compression: parameters with stated contracts; `EVP_Digest` and `inflateInit2` are taken not to fail by themselves. That a signature cannot be forged is the hypothesis `Genuine` of the authenticity results.
- Allocation failure outside the decompression buffer, and freeing memory: the entry, record and plaintext buffers are always granted.
- NULL arguments, argument parsing, stdin and file reading (`read_all`), PEM parsing, `statvfs` itself, messages on stderr: inputs of the model.
- Read errors in the middle of the version file: a file is opened whole or not at all.
- Symbolic links already under the install directory, permissions, and other processes: the tree changes only by the modelled operations.
- tarfile members other than plain files (hard links to one inode, symbolic links), names above 100 bytes (which go to the prefix field and are refused by the device) and files of 8 GiB or more: `Storable` states the domain of the ustar writer.
- Text outside ASCII: `json.dumps` is modelled one byte a character, with its escapes for control characters; characters above U+00FF are not printed.
- Walking and sorting the input directory, build time, git commit, and chunked hashing: the list of files in walk order, and the four texts, are inputs.
- Packager.StageArchive: does not model gzip compression of the archive, which is the toolchain's `compress`.
- EndToEnd.PackedFilesAreInstalled: assumes no fault while the files are written; what such faults and failed version writes do is in EndToEnd.RepeatingCuresFailure and DeviceLaws.RunRecordsVersion.
- Constant-time comparison, key and IV freshness, key generation: not functional properties.
