# poks install pipeline in Dafny

poks is a package manager for developer tools. An application is named with a
version. poks finds that version in a manifest from a bucket (a Git repository of
manifests) and picks the archive for the current `(os, arch)`. It builds the
download URL from a `${key}` template, downloads the archive into a cache and checks
its SHA-256. It then extracts the archive into `apps/<name>/<version>`, guarding
against path traversal. A conda package is unpacked in two stages, and its
build-time prefix is patched ("poked") in place. Finally poks writes the manifest
next to the files and returns the environment updates (`PATH` and custom
variables), merged across apps. It also lists and uninstalls what is installed.

Modules, one per source file plus three helpers:

- `Base`: `Option`, `Result`, bytes and the error values.
- `Text`: the Python string and bytes built-ins the code uses.
- `Paths` / `Fs`: lexical `pathlib` paths, and the directory tree as a map from
  relative path to entry.
- `Platform`, `Resolver`, `Environment`, `Poker`, `Extractor`, `Downloader`,
  `Models`, `Poks`: the source modules of the same names.

State is passed as values. The cache directory, the network and the apps directory
are maps that methods take and return. An install step turns the apps directory
before it into the one after it. `PoksBucketRegistry` and `PoksBucket` are classes,
because `add_or_update` changes a registered bucket object in place.

Some collaborators become inputs:

- SHA-256 is a function-typed parameter: bytes to hex digest.
- Bucket syncing and manifest lookup are the `synced` map.
- Download plus archive decoding is the `fetch` function.
- The Python platform values are the `rawOs` and `rawMachine` strings.

The loops that build up a result (`SelectVersion`, `Poke`, `ExtractAll`/`WriteEach`,
`ValidateEntryPaths`, `ExpandEnv`, `CollectEnvUpdates`, `MergeEnvUpdates`,
`DownloadFile`, `VerifySha256`, `Install`, `List`, `ListVersions`) are `method`s, and
so are the operations that change state (`GetCachedOrDownload`, `Uninstall`,
`InstallApp`, the registry's `AddOrUpdate` and `Remove`). Each states its result
or new state through specification functions or the old state, and the properties are
lemmas about those functions. The
first-match searches (`FirstSuffix`, `FirstArchive`, `FirstWith` behind the registry
lookups, `FirstPathsDoc`, `FirstPart`, `FirstWithManifest`, `FirstEscaping`,
`FirstRefused`) and the `for` loop of `_relocate_extract_dir` (`Relocate`) are
functions, with their first-match or landing properties in their contracts.

Some behaviour of the code, as the model has it:

- `install` handles the apps one after the other, and the first error stops the run.
- The record written into an install directory is the whole manifest, as
  `.manifest.json`.
- `bin` and `env` come only from the version; an archive entry cannot override them.
- `uninstall --all` fails when the apps directory does not exist.
- A missing `extract_dir` and an escaping `extract_dir` are distinct errors.
  Relocation moves each item with `shutil.move`, and a move that cannot be done
  fails the extraction.
- An `extract_dir` holding a child of its own name (`toolchain/toolchain/hello.txt`
  with `extract_dir="toolchain"`) fails to relocate, because `shutil.move` of
  `toolchain/toolchain` into the existing `toolchain` raises at
  src/poks/extractor.py:114-115. The model follows the code here
  (`Extractor.SameNameChildCollides`), although tests/test_extractor.py:139-149
  expects the relocation to succeed.

## Model

| member | source | states |
|---|---|---|
| Platform.GetCurrentPlatform | src/poks/platform.py:8-38 | Succeeds iff the OS is a key of the OS table and the lower-cased machine is a key of the arch table, giving both mapped names. An unknown OS is reported before the machine, with the sorted OS keys; an unknown machine is reported lower-cased, with the sorted arch keys. Results are always among the poks names. |
| Platform.MachineCaseIgnored | src/poks/platform.py:31 | The letter case of the machine name never changes the outcome. |
| Platform.SortedKeysAreSortedMapKeys | src/poks/platform.py:34-37 | The key lists quoted in the two error messages are strictly ascending and hold exactly the keys of each table. |
| Platform.ArchAliasesAgree | src/poks/platform.py:14-19 | On every OS, a machine named `amd64` or `arm64` in any letter case gives the same outcome as `x86_64` or `aarch64`. |
| Platform.EveryPlatformReached | src/poks/platform.py:8-38 | Every pair of a poks OS name and a poks arch name is the platform of some host, so the stated range of results is exact. |
| Resolver.PlaceholderAt | src/poks/resolver.py:19 | A regex match at a position is exactly `${`, a non-empty run of word characters, and `}`. |
| Resolver.PlaceholderOfKey | src/poks/resolver.py:19 | `${key}` for any word-character key is matched, with that key. |
| Resolver.ExpandKnownHead | src/poks/resolver.py:15-17 | A known placeholder is replaced by its value verbatim, and the scan continues after it. |
| Resolver.ExpandUnknownHead | src/poks/resolver.py:15-17 | An unknown placeholder is left exactly as written. |
| Resolver.ExpandLiteralPrefix | src/poks/resolver.py:8-19 | Text without `$` is copied through unchanged. |
| Resolver.ExpandWithoutKnownKeys | src/poks/resolver.py:8-19 | A template with no placeholder of a known key comes back unchanged, so expansion is idempotent on its own output once no known key remains. |
| Resolver.AdjacentPlaceholders | src/poks/resolver.py:19 | Two adjacent known placeholders are both replaced. |
| Resolver.ValuesAreNotRescanned | src/poks/resolver.py:15-19 | For any two known keys, a value that is the other key's placeholder is inserted as that placeholder; only a second expansion gives the other key's value. |
| Resolver.FirstArchive | src/poks/resolver.py:30-32 | The index found is the first archive whose os and arch both match; none is found iff no archive matches. |
| Resolver.SupportedPairs | src/poks/resolver.py:33 | One `(os, arch)` pair per archive, in manifest order. |
| Resolver.ResolveArchive | src/poks/resolver.py:22-34 | The archive returned matches the platform and is the first that does. The error happens iff no archive matches, and it lists every offered pair. |
| Resolver.UrlVariables | src/poks/resolver.py:51-57 | The template variables are version, os and arch, plus `ext` exactly when the archive has a non-empty one. |
| Resolver.ResolveDownloadUrl | src/poks/resolver.py:37-58 | Errors iff neither the archive nor the version has a non-empty URL. Otherwise the archive URL takes precedence over the version URL, expanded with the archive's variables. |
| Resolver.ExtKeptWithoutArchiveExt | src/poks/resolver.py:56-58 | Without an archive extension, `${ext}` stays in the URL as written. |
| Environment.BinDirs | src/poks/environment.py:21-23 | One path per `bin` entry, the entry joined under the install directory, in order. |
| Environment.ExpandAll | src/poks/environment.py:24-27 | Every `env` key is kept, and only those keys. |
| Environment.ExpandEnv | src/poks/environment.py:24-27 | The loop over the `env` items produces every value with `${dir}` replaced. |
| Environment.EnvUpdatesContents | src/poks/environment.py:13-28 | The keys are `PATH` when there are bin entries, plus the `env` keys. `PATH` is the separator-join of the bin dirs unless `env` overrides it. Every `env` value has `${dir}` expanded to the install dir. |
| Environment.CollectEnvUpdates | src/poks/environment.py:13-28 | The method's result is the environment update of the version for its install directory. |
| Environment.EnvValueWithoutDirKept | src/poks/environment.py:26-27 | An `env` value that does not mention `${dir}` is passed through unchanged. |
| Environment.MergeInto | src/poks/environment.py:40-47 | The inner loop folds every key of one update into the merged map. |
| Environment.MergeEnvUpdates | src/poks/environment.py:31-48 | The nested loop computes the merge of the updates, in order. |
| Environment.MergedKeys | src/poks/environment.py:31-48 | The merged keys are exactly the keys some update sets; an empty list merges to an empty map. |
| Environment.MergedLastWriterWins | src/poks/environment.py:43-47 | For every key but `PATH`, the last update that sets the key decides its value. |
| Environment.MergedPath | src/poks/environment.py:41-42 | `PATH` is present iff some update sets it. Its value is the separator-join of every non-empty `PATH` contribution, in input order. |
| Environment.PathFold | src/poks/environment.py:42 | Folding one more `PATH` value into the join of the earlier non-empty ones appends it, unless it is empty. |
| Poker.ReadText | src/poks/poker.py:45 | Reading in text mode leaves no carriage return and never lengthens the content. |
| Poker.ReadTextWithoutCR | src/poks/poker.py:45 | Content without carriage returns is read as it is. |
| Poker.Padded | src/poks/poker.py:57 | The padded prefix has exactly the placeholder's length: the new bytes, then zeros. |
| Poker.PokeBinary | src/poks/poker.py:52-65 | Fails iff the new prefix is longer than the placeholder in UTF-8 bytes, with both lengths and the file name. |
| Poker.BinaryPokeKeepsSize | src/poks/poker.py:57-64 | A successful binary poke never changes the file's size, including the forward-slash pass. |
| Poker.BinaryPokeWithoutPlaceholder | src/poks/poker.py:59-64 | A file holding neither spelling of the placeholder is left unchanged. |
| Poker.TextPokeLength | src/poks/poker.py:44-49 | Without backslashes or carriage returns, a text poke changes the length by the prefix difference once per occurrence of the placeholder; an empty placeholder occurs once per decoded character plus once. |
| Poker.TextPokeOfEmptyPlaceholder | src/poks/poker.py:44-49 | With an empty placeholder, `_poke_text` on valid UTF-8 text writes the encoding of Python's `text.replace("", prefix)`: the prefix around every character, never between the bytes of one character. |
| Poker.TextPokeWithoutPlaceholder | src/poks/poker.py:44-49 | A file without the placeholder (and without carriage returns) is left unchanged. |
| Poker.PokeOne | src/poks/poker.py:29-41 | One entry changes at most its own target file inside the install directory, and that file then holds the text or binary poke of its content with `str(install_dir)` as the new prefix. A missing target, an unknown mode or a path resolving outside the install directory changes nothing. It fails iff the target is a file in binary mode whose placeholder is too short for the install path. |
| Poker.PokeOneAsWritten | src/poks/poker.py:30-41 | As written, one entry changes at most the file `install_dir / path` resolves to, wherever that is, and fails iff that file is poked in binary mode with a placeholder too short for the install path. |
| Poker.PatchEscapesInstallDir | src/poks/poker.py:31-39 | A patch path `../c` resolves to a sibling of the install directory: as written, text mode rewrites that file and binary mode raises iff the placeholder is too short; `PokeOne` leaves the files unchanged in both modes. |
| Poker.PokeAll | src/poks/poker.py:21-41 | Poking never adds or removes files. |
| Poker.Poke | src/poks/poker.py:21-41 | The loop over the patches computes the in-order run that stops at the first error. |
| Poker.PokeAllOutcome | src/poks/poker.py:36-41 | A run fails only because of a binary entry whose placeholder is too short. A run without such an entry succeeds. |
| Poker.PokeAllPatchesSoleTarget | src/poks/poker.py:29-41 | In a run that succeeds, a file that exactly one entry targets ends up holding that entry's text or binary poke of its original content, with `str(install_dir)` as the new prefix. |
| Poker.PokeAllKeepsUntargeted | src/poks/poker.py:30-39 | A file no entry targets keeps its content, even when the run fails. |
| Poker.BinaryPokesKeepSizes | src/poks/poker.py:38-39 | When every entry is binary, every file keeps its size, even when the run fails. |
| Extractor.FirstSuffix | src/poks/extractor.py:38-40 | The entry found is the first in table order whose suffix ends the name; none iff no suffix does. |
| Extractor.DetectFormat | src/poks/extractor.py:35-42 | Succeeds iff the lower-cased final component ends with a supported suffix, with that suffix's format. Otherwise the error names the file and the sorted suffix list. |
| Extractor.SuffixesAreSuffixFree | src/poks/extractor.py:22-32 | No supported suffix ends another one. |
| Extractor.DetectedFormatIsTheSuffixFormat | src/poks/extractor.py:35-40 | The detected format is the format of whichever suffix the name ends with, independent of table order. |
| Extractor.SortedSuffixesAreSorted | src/poks/extractor.py:41 | The suffix list in the error message is strictly ascending. |
| Extractor.SortedSuffixesAreTheKeys | src/poks/extractor.py:41 | That list holds exactly the table's suffixes. |
| Extractor.FirstEscaping | src/poks/extractor.py:48-51 | The name found is the first that resolves outside the destination; none iff all stay inside. |
| Extractor.FirstEscapingIsFirst | src/poks/extractor.py:48-51 | An escaping name preceded only by names that stay inside is the one reported. |
| Extractor.ValidateEntryPaths | src/poks/extractor.py:45-51 | Succeeds iff every name stays inside. Otherwise it reports the first escaping name. |
| Extractor.Names | src/poks/extractor.py:79 | The member names, in archive order. |
| Extractor.FirstRefused | src/poks/extractor.py:94-98 | The member found is the first the writer refuses; none iff it accepts all. |
| Extractor.Steps | src/poks/extractor.py:81-84 | One `(done, total)` report per member written, counting from one. |
| Extractor.ExtractListingOutcome | src/poks/extractor.py:69-104 | Zip, 7z and unfiltered tar fail iff some name escapes, and then write and report nothing. Filtered tar fails iff some name, with leading slashes stripped, escapes. A success writes every member. |
| Extractor.WriteListingRefusedAt | src/poks/extractor.py:94-98 | A run stopped at its first refused member keeps the members written before it and their reports. |
| Extractor.WriteListingAccepted | src/poks/extractor.py:81-104 | A run with no refused member writes all members. Zip and tar report after each member; 7z reports once, at the end. |
| Extractor.ExtractAll | src/poks/extractor.py:69-104 | The method computes the extraction of the members by the writer. |
| Extractor.WriteEach | src/poks/extractor.py:81-84 | The per-member loop computes the writing phase. |
| Extractor.WriteUntilRefused | src/poks/extractor.py:95-98 | The loop writes the members in order up to the first one the writer refuses. It reports `(idx, total)` after each member written. |
| Extractor.ZipKeyIsResolvedKey | src/poks/extractor.py:79-82 | A relative zip name without `..` lands exactly where the traversal check resolved it. |
| Extractor.EntryKept | src/poks/extractor.py:81-82 | An existing entry that no member writes over keeps its content. |
| Extractor.LastFileWriteLands | src/poks/extractor.py:81-82 | A file member that no later member overwrites ends up with its content. |
| Extractor.FileAtDestinationIsDropped | src/poks/extractor.py:81-82 | A file member whose key is the destination itself leaves the tree unchanged (the gap named under "## Left out"). |
| Extractor.ZipDotMemberIsDropped | src/poks/extractor.py:81-98 | A zip file member named `.` succeeds with the report `(1, 1)` and writes nothing (the same gap). |
| Extractor.Below | src/poks/extractor.py:114-115 | The entries strictly below the directory, keyed relative to it, and all of them. |
| Extractor.Relocate | src/poks/extractor.py:107-116 | An escaping `extract_dir` fails first, one naming the destination itself next, then a missing directory or a plain file. Among the rest it fails iff some child cannot be moved with `shutil.move`; it succeeds otherwise. |
| Extractor.RelocateMoves | src/poks/extractor.py:114-116 | After a success every entry below the directory is at the place its child moved to, every other entry that nothing lands on is kept, and nothing else exists: the directory itself is gone. |
| Extractor.LandingInjective | src/poks/extractor.py:114-115 | Two different entries below the directory never land at the same place. |
| Extractor.MovedContents | src/poks/extractor.py:114-115 | The moved entries are exactly the entries below the directory, each at its landing place with its content. |
| Extractor.SameNameChildCollides | src/poks/extractor.py:114-115 | A directory `w` at the top with a child named `w` cannot be relocated: that child's move targets `w/w`, which exists. |
| Extractor.RelocateUnwrapsSingleTopDir | src/poks/extractor.py:107-116 | An archive with one top directory `w`, relocated by `w`, becomes exactly `w`'s contents one level up when `w` has no child named `w`, and fails otherwise. |
| Extractor.Patchable | src/poks/extractor.py:151-152 | The entries kept are exactly those with both a placeholder and a file mode. |
| Extractor.PatchesOfMeaning | src/poks/extractor.py:145-153 | The comprehension fails iff a kept entry has no `_path`. Otherwise it gives one patch per kept entry, in order. |
| Extractor.PatchesOfAppend | src/poks/extractor.py:145-153 | The patch list of two runs of entries is the two patch lists concatenated. |
| Extractor.FirstPathsDoc | src/poks/extractor.py:139-143 | The entry found is the first regular file whose name ends with `paths.json`. |
| Extractor.ParseCondaPatches | src/poks/extractor.py:135-154 | No paths document, or one without `paths`, gives no patches. Otherwise the patches come from its `paths` list. |
| Extractor.FirstPart | src/poks/extractor.py:162-163 | The part found is the first `info-`/`pkg-` member ending in `.tar.zst`. |
| Extractor.ExtractConda | src/poks/extractor.py:157-175 | Without a pkg part it fails with the archive's name, and a patch list that does not parse fails before anything is written. A failed unpacking stops before the poke. Otherwise the result is the unpacked files poked with the patches, which changes nothing when there are none. A success reports `(1, 1)` once; a failure reports nothing. |
| Extractor.CondaWithoutPatchesIsUnpackOnly | src/poks/extractor.py:166-175 | A package without a paths document is unpacked without patching. |
| Extractor.Unpacked | src/poks/extractor.py:188-196 | The payload is extracted by the writer of the detected format: `_extract_conda` for conda, the zip, tar or 7z listing otherwise. A payload of another kind is a corrupt archive. |
| Extractor.ExtractArchive | src/poks/extractor.py:178-200 | An unsupported name fails before anything is written. A failed extraction, or a missing or empty `extract_dir`, gives the detected writer's extraction as it is. Otherwise the files are relocated; a relocation that fails keeps the extracted files and the reports. |
| Extractor.EmptyExtractDirIsNone | src/poks/extractor.py:198-199 | An empty `extract_dir` relocates nothing, exactly as a missing one. |
| Extractor.SafeZipSucceeds | src/poks/extractor.py:77-84 | A zip whose names all stay inside succeeds, with reports `(1, n)` … `(n, n)`. |
| Extractor.EscapingZipWritesNothing | src/poks/extractor.py:77-79 | A zip with one escaping name fails and leaves the tree untouched. |
| Paths.Rel | src/poks/extractor.py:47-50 | A name has a key iff it resolves inside the destination, and the key is where it resolves. |
| Paths.PlainRelativeNameStaysInside | src/poks/extractor.py:45-51 | A relative name without a `..` part always passes the traversal check. |
| Paths.ParentStepEscapes | src/poks/extractor.py:45-51 | `../c` escapes a destination whose last component is not `c`. |
| Paths.ParentStepResolves | src/poks/poker.py:31 | `dir / "../c"` resolves to the sibling `c` of `dir`. |
| Text.CharCountOfUtf8 | src/poks/poker.py:45 | Decoding the UTF-8 encoding of a text gives exactly as many characters as the text has. |
| Text.InsertAtCharsOfUtf8 | src/poks/poker.py:45-46 | Inserting bytes at every decoded-character boundary of UTF-8 text is the encoding of Python's `replace("", …)` on that text. |
| Paths.AbsoluteNameEscapes | src/poks/extractor.py:45-51 | An absolute one-component name escapes a destination two levels deep. |
| Paths.NormalizeKeepsBase | src/poks/extractor.py:49 | Resolving parts without `..` never climbs above the starting point. |
| Paths.NormalizeWithoutParentSteps | src/poks/extractor.py:49 | Without `..`, resolving appends just the real components. |
| Paths.BaseName | src/poks/downloader.py:87 | The final name component never contains a separator. |
| Fs.AddDirs | src/poks/extractor.py:81-98 | Creating a directory with its parents keeps every entry and adds exactly the missing ancestors. |
| Fs.Put | src/poks/extractor.py:82 | Writing a member at a non-empty key puts it there, creates its parents, and keeps everything that is not on its path; the destination itself is never replaced. |
| Downloader.CacheNameStaysInCache | src/poks/downloader.py:85-89 | With a hexadecimal digest, a cache name is one path component, so the cache file of any URL is a direct child of the cache directory. |
| Downloader.QueryIgnored | src/poks/downloader.py:87 | A query string never reaches the cache file name. |
| Downloader.TrailingSlashIgnored | src/poks/downloader.py:87 | Trailing slashes never reach the cache file name. |
| Downloader.StopFrom | src/poks/downloader.py:56 | The read that ends the loop is the first empty chunk, the end of the data, or the failing read. |
| Downloader.ReportsUpTo | src/poks/downloader.py:59-60 | After each chunk, the report is the total of the chunks so far and the `Content-Length`. |
| Downloader.DownloadFile | src/poks/downloader.py:28-65 | An unreachable URL leaves the cache alone. Otherwise the entry holds exactly the chunks read before the loop ended, with one report per chunk. It fails iff a transport error ended the loop. |
| Downloader.LastReportIsBodySize | src/poks/downloader.py:58-60 | The last report carries the size of the file written. |
| Downloader.ReportsIncrease | src/poks/downloader.py:58-60 | Every report counts strictly more bytes than the one before. |
| Downloader.VerifySha256 | src/poks/downloader.py:68-82 | The chunked check fails iff the digest of the whole content is not the expected one, naming the file and both digests. |
| Downloader.GetCachedOrDownload | src/poks/downloader.py:92-130 | A verified cache hit is returned with nothing downloaded. Otherwise a corrupt entry is deleted, the URL downloaded into the entry, and the result verified. Success means the entry holds content with the expected digest. No other cache entry changes. |
| Models.AdmittedByFilters | src/poks/domain/models.py:135-144 | `is_supported` over a list of platforms: an app without filters admits all of them, one with both filters admits exactly the pairs of a listed OS and a listed arch, and an empty filter list admits none. |
| Models.FirstWith | src/poks/domain/models.py:82-101 | The bucket found is the first whose field has the value; none iff no bucket's does. |
| Models.BucketRegistry.GetByName | src/poks/domain/models.py:82-87 | The first bucket with that name, or none iff no bucket has it. |
| Models.BucketRegistry.GetByUrl | src/poks/domain/models.py:89-94 | The first bucket with that URL, or none iff no bucket has it. |
| Models.BucketRegistry.GetById | src/poks/domain/models.py:96-101 | The first bucket with that id, or none iff no bucket has it. |
| Models.BucketRegistry.Target | src/poks/domain/models.py:105-109 | The record to update is looked up by a truthy id first, then by URL. None means no bucket shares the URL (or the truthy id). |
| Models.BucketRegistry.AddOrUpdate | src/poks/domain/models.py:103-116 | Without a match the bucket is appended and nothing else changes. With a match the existing record takes the new URL and, where truthy, the new name and id, and no other record changes. Afterwards the URL (and a truthy id) can be found. |
| Models.BucketRegistry.Remove | src/poks/domain/models.py:118-120 | Removing keeps exactly the buckets with another id, in order. |
| Models.WithoutId | src/poks/domain/models.py:120 | The buckets kept are exactly those whose id differs. |
| Models.WithoutIdAppend | src/poks/domain/models.py:120 | Removal distributes over concatenation, so the survivors keep their order. |
| Models.Bucket.constructor | src/poks/domain/models.py:68-74 | A bucket holds the url, name and id it was made with. |
| Models.BucketRegistry.constructor | src/poks/domain/models.py:80 | A new registry is empty. |
| Poks.FindVersion | src/poks/poks.py:103-107 | The version found is the first whose name matches; none iff there is none. |
| Poks.SelectVersion | src/poks/poks.py:103-107 | The loop with its `break` finds that first match. |
| Poks.WithVersion | src/poks/poks.py:121-124 | Creating the install dir installs that version with the given contents. Every other app and every other version stay as they were. |
| Poks.StepFacts | src/poks/poks.py:95-130 | An unsupported app leaves no trace. A step touches only its own app, never changes an existing version, and contributes nothing when it fails. A supported success installs the chosen unyanked version and contributes its environment. An existing version is only refused as yanked, or contributes its environment. |
| Poks.FreshInstallFacts | src/poks/poks.py:121-130 | A fresh install touches only its app and its existing versions stay. A failure contributes nothing; a success installs the version and contributes its environment. |
| Poks.UnpackFacts | src/poks/poks.py:123-130 | Extraction and manifest writing keep the same promises as the fresh install. |
| Poks.UnpackExtracts | src/poks/poks.py:123-130 | Once the format is known and the app path is not a file, the version directory holds exactly what `extract_archive` wrote into the install directory, the manifest is stored only after a successful extraction, and the step fails as the extraction failed. |
| Poks.FreshInstallStoresManifest | src/poks/poks.py:124-127 | A fresh install that succeeds leaves a version directory storing the whole manifest. |
| Poks.InstallsStopAtFailure | src/poks/poks.py:95-130 | Once an app fails, the later apps are not looked at. |
| Poks.InstallsContribute | src/poks/poks.py:94-130 | A run that succeeds contributes the environment of its supported apps in configuration order, whatever was installed before. |
| Poks.InstallsTouchOnlyTheirApps | src/poks/poks.py:95-130 | Apps not named in the configuration keep their directories. |
| Poks.InstalledPersists | src/poks/poks.py:115-119 | A version that exists is never replaced or removed by later apps of the run. |
| Poks.InstallAgainChangesNothing | src/poks/poks.py:79-132 | Installing a configuration a second time after a success changes nothing and returns the same environment. |
| Poks.ReplayPrefix | src/poks/poks.py:115-119 | Replaying any prefix of a successful run changes nothing and contributes as the first run did. |
| Poks.Install | src/poks/poks.py:79-132 | The method detects the platform first, then installs the apps in order until the first error. It returns the merged environment or that error. |
| Poks.InstallOne | src/poks/poks.py:96-130 | The loop body's chain of checks computes one install step. |
| Poks.Listed | src/poks/poks.py:157-186 | A listed entry has the directory's name and version, bucket `unknown` and no platform filter. Bin dirs are present when the stored manifest's version has bin entries. Empty dirs or env are reported as absent, and a directory without a readable manifest has neither. |
| Poks.ListingMatchesInstall | src/poks/poks.py:157-186 | What `list` reports for an installed version agrees with what `install` contributes: the same bin dirs and the same expanded env. |
| Poks.Describe | src/poks/poks.py:157-186 | The inner loop body of `list` builds that entry. |
| Poks.ListVersions | src/poks/poks.py:150-186 | Every version directory of an app is listed, once each, with its entry. |
| Poks.List | src/poks/poks.py:134-188 | A missing apps directory lists nothing. Every version directory of every app directory is listed exactly once; plain files are not. |
| Poks.WithoutAppDirs | src/poks/poks.py:205-211 | Only the plain files of the apps directory remain. |
| Poks.WithoutVersion | src/poks/poks.py:224-228 | The version is removed, the app too once it is empty, and everything else stays. |
| Poks.UninstallUndoesInstall | src/poks/poks.py:219-228 | Uninstalling a version right after creating it restores the apps directory. |
| Poks.Uninstall | src/poks/poks.py:190-234 | Models every branch: `all` with and without an apps directory; no name is a no-op; a missing version or app is `NotInstalled`; a plain-file target is refused; otherwise the version or the app is removed. |
| Poks.SearchAllBuckets | src/poks/bucket.py:43-68 | No local buckets is its own error. Otherwise the first bucket directory holding the manifest is chosen; the error happens iff none holds it. |
| Poks.FirstWithManifest | src/poks/bucket.py:61-68 | The bucket chosen is the first that holds the manifest, skipping plain files. |
| Poks.LocalNamed | src/poks/poks.py:64-66 | The local entry of that name, or none iff there is none. |
| Poks.ResolveAppSpec | src/poks/poks.py:52-70 | A spec without `@` is refused. Name and version split at the first `@`. A URL bucket resolves to `temp` iff the synced clone holds the manifest; a named bucket that is missing is refused, and one that exists resolves iff it holds the manifest; without a bucket the spec resolves iff the search of all local buckets finds one, to that bucket. Every other outcome is `ManifestNotFound` or the search's error. |
| Poks.ResolvedSpecIsSynced | src/poks/poks.py:57-77 | When `install` sees the buckets `install_app` looked at, the resolved bucket and manifest are both synced, so the install passes the bucket and manifest lookups. |
| Poks.InstallApp | src/poks/poks.py:40-77 | Installs the one-app, one-bucket configuration the spec resolves to, or fails with the resolution error before installing anything. |

## Left out

- Logging, the progress-bar module, the command line (`main.py`) and the Git cloning of buckets (`bucket.py` syncing) are not modelled. Synced buckets and their manifests are an input map.
- Decompression (zlib, xz, bzip2, zstd, 7z codecs), JSON parsing and dataclass (de)serialisation are not modelled. An archive is given as its decoded members and a conda part as its decoded members and `paths.json` document.
- A payload that does not decode as its detected format is a single `CorruptArchive` error; the causes of corrupt data are left out.
- The 7z `UnsupportedCompressionMethodError` translation is not modelled, because it depends on the codec library.
- Tar's `data` filter is modelled only as its path check (leading slashes stripped, escaping names refused). Its link, device and permission checks are not modelled.
- Paths are lexical: symbolic links are not modelled, because `resolve()` on real files is outside the model.
- Fs.AddDirs and Fs.Put: a member whose path collides with an existing entry of the other kind is written without error, where zipfile and tarfile raise `FileExistsError` or `NotADirectoryError`. A file over a directory replaces the directory and leaves its children under the new file; a directory member over a file keeps the file; a file below an existing file is written with the file kept as its parent. The model's tree can then hold children of a file. A file member that resolves to the destination itself (a zip member `.`, a 7z or filtered-tar member `.` or `a/..`) is skipped, with its progress report, where zipfile and tarfile raise `IsADirectoryError` on opening the destination directory for writing; `Extractor.FileAtDestinationIsDropped` and `Extractor.ZipDotMemberIsDropped` state this. `OSError`s of the filesystem (permissions, disk full, `mkdir` races) are left out.
- Extractor.Relocate: whether a move can be done is decided on the tree as extracted, and a failed relocation reports that tree. The source has by then moved the items `iterdir` returned earlier, in filesystem order, and raises `shutil.Error` or `OSError`; the model has a single `ExtractDirCollision` error naming `extract_dir`.
- Extractor.Relocate: an `extract_dir` that resolves to the destination itself is the error `ExtractDirIsDestination`. In the source the moves are no-ops; `rmdir` then raises when the destination holds anything, and when it is empty `rmdir` removes the install directory and the later `.manifest.json` write fails.
- Poker.PokeText: works on the UTF-8 bytes of the file rather than on text decoded with `surrogateescape`. With an empty placeholder the prefix goes between decoded characters, as in Python. For a non-empty placeholder the byte match and the character match agree because the placeholder's encoding starts with a byte that no decoded character carries inside it; that argument is not proved in Dafny.
- Poker.PokeOne: its contract describes the corrected behaviour, which skips a patch path that resolves outside the install directory. `Poker.PokeOneAsWritten` models the code as written (see Findings).
- Poker.PokeAllOutcome: states the outcome of the corrected `PokeOne`. As written, a binary entry whose path leaves the install directory can also fail the run.
- Paths are POSIX paths: `ToString` joins with `/` from the root, and `Resolve` reads only `/` as a separator. Windows drive letters, `\` separators and a relative `--root` (`main.py:38`), which the code uses as given, are not representable.
- A text poke writes the text back with `\n` line ends, as `write_text` does on POSIX. On Windows `write_text` writes `\r\n` for each newline; that is not modelled.
- Text.Lower and the regex's `\w`: ASCII only, because Unicode case tables are out of scope.
- Downloader.DownloadFile: a `Content-Length` header is given already parsed; a malformed header raising in `int()` is not modelled. The timeout is not modelled.
- Downloader.DownloadFile: the `mkdir` of the cache directory and local-file errors are not modelled. Only transport errors mid-transfer and unreachable URLs are modelled.
- The progress callback is always present; the branches that merely skip it or log instead are not modelled.
- App names and versions are single path components. A name containing `/` or `..` would address other directories in the source; that is not modelled.
- An archive member named `.manifest.json` at the top of the install directory is superseded by the stored manifest.
- Poks.Uninstall: `rmtree` of a plain file raises in the source; it is modelled as the error `NotADirectory`.
- The temporary clone `install_app` makes for a URL bucket is represented by the `remote` manifest map.
- A stored manifest that fails to parse is the `Unparsable` value; the parse itself is left out.
- Conflict warnings of `merge_env_updates` are logging only and are not modelled.
- Downloader.CacheNameStaysInCache: SHA-256 is a parameter, so the digest being hexadecimal is a hypothesis rather than a fact the model proves.
- `os.pathsep` is the `sep` parameter, and `sys.platform` and `platform.machine()` are the `rawOs` and `rawMachine` parameters.

## Findings

| source | as written | input that shows it | evidently intended | confidence | as-written member | corrected member |
|---|---|---|---|---|---|---|
| src/poks/poker.py:31-39 | Each patch target is `install_dir / entry.path`, poked wherever it resolves; the `_path` values of a package's `paths.json` are not checked the way member names are. | A conda package whose `paths.json` lists `_path` `../other/f` with a placeholder: text mode rewrites the sibling `other/f` of the install directory. | Patch only files inside the install directory, like the traversal check on archive members. | medium; not executed | Poker.PokeOneAsWritten, with Poker.PatchEscapesInstallDir | Poker.PokeOne |
