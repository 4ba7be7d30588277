# OMM repository index engine in Dafny

This project models the core of the OMM PHP Library, the tool that maintains the
repository index ("remote repository XML") of the Open Mod Manager. It covers five parts:

- **The index.** `RemoteRepositoryXML` holds a `uuid`, a `title`, a `downpath` and a `remotes`
  container. The container holds the package records and a `count` attribute that mirrors
  `remoteCount`.
- **The identity catalog and the record view.** `RemotePackageList` maps identities to
  descriptors. `RemotePackageDescriptor` is a validated read-only view of one `remote` element.
- **The package.** `Package` opens a mod archive, reads its `package.omp` manifest and logo, and
  builds the `remote` record for it.
- **The encoding helpers.** These are line-ending conversion, the description and logo data URIs,
  the file hash, version-4 UUIDs (section 4.4 of RFC 4122), and per-segment percent-encoding of
  paths (sections 2.1 and 2.3 of RFC 3986).
- **The two command-line tasks.** `GenerateFolderRepositoryTask` reconciles an existing index with
  the archives on disk. The older `FolderRepositoryTask` rebuilds the index from scratch.

## How the model is built

- The XML document is a tree of `Node` values (`xml.dfy`).
- `getElementsByTagName` is a preorder search.
- The filesystem, zip archives, manifest parsing, MIME sniffing, base64, gzip, hashing and
  thumbnailing are oracles. They are function-typed fields of `FileSystem` and `Codecs`
  (`environment.dfy`).
- `random_bytes(16)` becomes a 16-byte parameter.
- `Codecs` always lists "md5" among its hash algorithms, because the hash extension is always built
  in from PHP 7.4 on.
- PHP's own semantics are written out in `php.dfy`: `empty()` (`""` and `"0"` are empty),
  int↔decimal conversion, `dirname`/`basename`/`extension`, `substr` and `strcasecmp`.

The stateful PHP classes are Dafny classes, and their methods are proved against pure
specification functions:

- `RemoteRepositoryXML` is proved against `Appended`, `Removed`, `Cleaned` and `Adjusted`.
- `RemotePackageList` is proved against map updates.
- The removal loop is proved against `FirstIndexOf`.
- Each task loop is proved against a fold over its input: `Prune`, `Reconcile` or `Rebuild`.

The main invariants are:

- `Valid`: the `count` attribute reads as `remoteCount`. Every operation preserves it.
- `Consistent`: `remoteCount` equals the number of records. Add, remove and clean preserve it when
  it held before. Loading does not establish it, because the stored attribute is taken as it is.

Some consequences of the code as written are proved:

- **A stale count survives.** Cleaning an index that has no records but a non-zero count keeps
  that count (`CleanKeepsStaleCount`).
- **Duplicate identities defeat pruning.** With two records sharing one identity, pruning removes
  the first record even when only the second record's archive is missing
  (`DuplicatePruneRemovesWrongRecord`).
- **Adding never replaces a record.** `addRemotePackage` appends without looking for an earlier
  record of the same identity, so a changed archive leaves its older record in place next to the
  new one (`Appended`, `StaleRecordReadded`).

One consequence depends on a definition this model chooses, not on the library's code.
`containsRemotePackage` and `getRemotePackageDescriptor` are not defined in the modelled source
files (RemoteRepositoryXML.php, RemotePackageDescriptor.php, Package.php) (see
"## Left out"). Here they find the first record with the identity. With that lookup, an archive whose
identity is first recorded with another byte size is appended again on every run
(`StaleRecordReadded`). A lookup through the identity catalog, where the last record added wins,
would find the new record on the next run and skip the archive.

## Model

| member | source | states |
|---|---|---|
| RepositoryXml.InitializeRepositoryXML | src/Repository/RemoteRepositoryXML.php:65-95 | A missing file gives a fresh root. An unparsable file fails. A parsed file succeeds iff an `Open_Mod_Manager_Repository` element exists, and a document whose root is that element is used as is. |
| RepositoryXml.FreshRemotes | src/Repository/RemoteRepositoryXML.php:131-140 | A new `remotes` element has no records and a count attribute that reads as 0. |
| RepositoryXml.UpdateGlobalXMLData | src/Repository/RemoteRepositoryXML.php:103-141 | The title and downpath are the caller's values, stored raw. The first existing uuid is kept, and one is generated from the random bytes only when none exists. The first `remotes` element is taken, or an empty one is created. A non-numeric count fails. The result is `Valid`. |
| RepositoryXml.LoadRepository | src/Repository/RemoteRepositoryXML.php:50-60 | A successfully loaded index is `Valid`. |
| RepositoryXml.NewRepository | src/Repository/RemoteRepositoryXML.php:86-94 | A new file gives an empty, consistent index with count 0 and a generated uuid. |
| RepositoryXml.UuidKept | src/Repository/RemoteRepositoryXML.php:106-110 | An existing uuid survives re-opening, whatever random bytes are supplied. |
| RepositoryXml.Adjusted | src/Repository/RemoteRepositoryXML.php:181-185 | The count moves by delta, the attribute is rewritten to read as the new count, and the records are untouched. |
| RepositoryXml.WithChildren | src/Repository/RemoteRepositoryXML.php:171 | Only the records change; validity and the global values are kept. |
| RepositoryXml.Appended | src/Repository/RemoteRepositoryXML.php:165-175 | Exactly one record is appended at the end and the count rises by 1. |
| RepositoryXml.FirstIndexOf | src/Repository/RemoteRepositoryXML.php:194-199 | Gives the position of the first record with that identity. It is None iff no record has that identity. |
| RepositoryXml.Removed | src/Repository/RemoteRepositoryXML.php:191-204 | Removal keeps validity and the global values. |
| RepositoryXml.Cleaned | src/Repository/RemoteRepositoryXML.php:209-222 | No records remain, and validity and the global values are kept. |
| RepositoryXml.RemovedFirstMatch | src/Repository/RemoteRepositoryXML.php:191-204 | Only the first matching record is deleted, the others stay in order, and the count falls by 1. With no match, nothing changes. |
| RepositoryXml.RemovedKeepsLaterDuplicates | src/Repository/RemoteRepositoryXML.php:194-201 | A later record with the same identity stays, and exactly one record goes. |
| RepositoryXml.TransitionsKeepConsistent | src/Repository/RemoteRepositoryXML.php:174 | Add, remove and clean preserve `count == |records|`. |
| RepositoryXml.CleanKeepsStaleCount | src/Repository/RemoteRepositoryXML.php:212-221 | With no records and a non-zero count, cleaning changes nothing and the index stays inconsistent. |
| RepositoryXml.CleanResetsCount | src/Repository/RemoteRepositoryXML.php:220 | With records present, cleaning sets the count and its attribute to 0. |
| RepositoryXml.RemoteRepositoryXML.Init | src/Repository/RemoteRepositoryXML.php:50-60 | The object holds the given state and file name. |
| RepositoryXml.RemoteRepositoryXML.Open | src/Repository/RemoteRepositoryXML.php:50-60 | Succeeds iff loading does, with a fresh valid object holding the loaded state. Otherwise it gives the loading error. |
| RepositoryXml.RemoteRepositoryXML.GetRemotePackageCount | src/Repository/RemoteRepositoryXML.php:155-158 | On a consistent index, this is the number of records. |
| RepositoryXml.RemoteRepositoryXML.AdjustRemoteCount | src/Repository/RemoteRepositoryXML.php:181-185 | The new state is `Adjusted(old state, delta)`. |
| RepositoryXml.RemoteRepositoryXML.AddRemotePackage | src/Repository/RemoteRepositoryXML.php:165-175 | A record that cannot be built propagates its error and leaves the state unchanged. Otherwise the new state is `Appended(old, record)`. |
| RepositoryXml.RemoteRepositoryXML.RemoveRemotePackage | src/Repository/RemoteRepositoryXML.php:191-204 | The loop with a break leaves `Removed(old state, ident)`. |
| RepositoryXml.RemoteRepositoryXML.CleanAllRemotePackages | src/Repository/RemoteRepositoryXML.php:209-222 | The counted removal loop leaves `Cleaned(old state)`. |
| RepositoryXml.RemoteRepositoryXML.SaveXML | src/Repository/RemoteRepositoryXML.php:228-237 | Fails, with the save error, iff writing the file fails. |
| RepositoryXml.RemoteRepositoryXML.GetRemotePackageDescriptor | src/Task/GenerateFolderRepositoryTask.php:116-117 | Present iff some record carries the identity, and the view's identity is that identity. |
| RepositoryXml.RemoteRepositoryXML.GetRemotePackageList | src/Task/GenerateFolderRepositoryTask.php:169 | Gives one view per record, in document order. |
| RepositoryXml.Views | src/Task/GenerateFolderRepositoryTask.php:169-171 | View i wraps record i, and there are as many views as records. |
| PackageList.UpsertSize | src/Repository/RemotePackageList.php:54-57 | A new identity grows the catalog by one. Re-adding an identity keeps the size. |
| PackageList.RemoveSize | src/Repository/RemotePackageList.php:63-66 | Removing a key shrinks the catalog by one iff the key was present. |
| PackageList.RemotePackageList.constructor | src/Repository/RemotePackageList.php:39-42 | Starts with an empty catalog. |
| PackageList.RemotePackageList.Size | src/Repository/RemotePackageList.php:90-93 | The number of distinct identities. It is 0 iff the catalog is empty. |
| PackageList.RemotePackageList.Add | src/Repository/RemotePackageList.php:54-57 | Stores the descriptor under its identity, replacing any earlier entry. The size grows only for a new identity. |
| PackageList.RemotePackageList.RemoveByIdent | src/Repository/RemotePackageList.php:63-66 | Deletes that key only. An absent key is a no-op, and the size falls by one iff the key was present. |
| PackageList.RemotePackageList.RemoveByPackage | src/Repository/RemotePackageList.php:72-75 | The same as removing the package's identity. |
| PackageList.RemotePackageList.Clear | src/Repository/RemotePackageList.php:80-84 | The catalog is empty and the size is 0. |
| DescriptorView.NewRemotePackageDescriptor | src/Repository/RemotePackageDescriptor.php:63-72 | Succeeds iff the element is named `remote`, and keeps that very element. Otherwise it fails as an invalid argument. |
| DescriptorView.GetIdentity | src/Repository/RemotePackageDescriptor.php:77-80 | The `ident` attribute, or "" when absent. |
| DescriptorView.GetByteSize | src/Repository/RemotePackageDescriptor.php:82-85 | The `bytes` attribute as a string, or "" when absent. |
| DescriptorView.GetMD5Hash | src/Repository/RemotePackageDescriptor.php:87-90 | The `md5sum` attribute, or "" when absent. |
| DescriptorView.GetFile | src/Task/GenerateFolderRepositoryTask.php:172 | The `file` attribute, or "" when absent. |
| DescriptorView.FirstUrl | src/Task/GenerateFolderRepositoryTask.php:173 | The text of the first `url` child, or "" when there is none. |
| DescriptorView.GetURL | src/Task/GenerateFolderRepositoryTask.php:173-178 | A record without children has an empty URL. |
| DescriptorView.GetRemoteXMLElement | src/Repository/RemotePackageDescriptor.php:95-98 | Gives back the very element the view was constructed from, which is named `remote`. |
| PackageBuilder.RetrieveInformationFromArchive | src/Package/Package.php:153-188 | An open error or a missing `package.omp` fails. On success, the manifest is the parsed `package.omp`. Logo data is present iff the manifest names a logo, and it is that entry's bytes. A named but missing logo fails. Every failure is an Exception. |
| PackageBuilder.RetrieveInformationAsWritten | src/Package/Package.php:159-184 | As written, a non-zero open error code escapes as a ValueError rather than an Exception. A missing logo is never reported. |
| PackageBuilder.OpenFailureEscapes | src/Package/Package.php:159-162 | A non-zip archive (code 19) yields an Error as written, and `ArchiveUnreadable(19)` once corrected. |
| PackageBuilder.MissingLogoAccepted | src/Package/Package.php:176-184 | A named but absent logo is accepted as empty data as written, and fails with `LogoMissing` once corrected. |
| PackageBuilder.ReadPackage | src/Package/Package.php:69-85 | Fails with `ArchiveMissing` iff the path does not exist. On success, the file is the base name, the size is the filesystem size, and the manifest and logo come from the archive. Every failure is an Exception. |
| PackageBuilder.DescriptionElement | src/Package/Package.php:139-141 | A `description` element whose `bytes` attribute reads back as the byte count. |
| PackageBuilder.RemoteAttributes | src/Package/Package.php:107-114 | Exactly the attributes ident, file, bytes, checksum and md5sum, with their values. |
| PackageBuilder.OptionalChild | src/Package/Package.php:117-122 | Gives no child for None, and one child for Some. |
| PackageBuilder.PictureElement | src/Package/Package.php:124-132 | Gives a picture iff logo data is present. With logo data, it succeeds iff the thumbnail and its logo URI can be made, and the picture is a `picture` leaf holding that URI. Failures are Exceptions. |
| PackageBuilder.DescriptionChild | src/Package/Package.php:134-142 | Gives a description child iff the description is non-empty in the PHP sense. |
| PackageBuilder.GenerateRemotePackageDescriptor | src/Package/Package.php:99-146 | Succeeds iff the hash, the picture and the description succeed. The result is a `remote` element with exactly the five attributes, and bytes reads as the size. Dependencies come first when present. The number of children is dependencies + logo + non-empty description. |
| PackageBuilder.Md5HashFailuresAreExceptions | src/Package/Package.php:114 | The package's MD5 hash never reaches the ValueError, because "md5" is always listed. So a failed record is never `HelperFailed(UnknownAlgorithm)`. |
| PackageBuilder.PictureChild | src/Package/Package.php:125-132 | With logo data, the child after the optional dependencies is the picture, holding the logo URI of the thumbnail. |
| PackageBuilder.DescriptionChildLast | src/Package/Package.php:135-142 | With a non-empty description, the last child is the description, with its encoded text and byte count. |
| PackageBuilder.GeneratedDescriptorView | src/Package/Package.php:107-114 | The view of a generated record reads back the identity, file, size and MD5 the package put in. |
| PackageBuilder.RemoteDescriptor | src/Repository/RemoteRepositoryXML.php:170 | Succeeds iff the record can be generated. Its name, its attributes and its leading children are the generated record's. Exactly when a location is set, one more child follows at the end: a `url` leaf holding the location. |
| PackageBuilder.Package.Init | src/Package/Package.php:77-84 | The object holds the given fields, with no custom URL or download path. |
| PackageBuilder.Package.Open | src/Package/Package.php:69-85 | Succeeds iff `ReadPackage` does, with a fresh object holding its fields. Otherwise it gives the same error. |
| PackageBuilder.Package.SetCustomURL | src/Task/GenerateFolderRepositoryTask.php:135 | Sets the custom URL only. |
| PackageBuilder.Package.SetDownloadPath | src/Task/FolderRepositoryTask.php:76 | Sets the download path only. |
| PackageBuilder.LocationReadBack | src/Task/GenerateFolderRepositoryTask.php:173 | The `getURL` of a built record is the location given, provided the dependencies element is not itself named `url`. |
| PackageHelper.ConvertLineEndings | src/Package/PackageHelper.php:111-114 | The output is empty iff the input is, and the last byte is kept. |
| PackageHelper.ConvertedHasNoBareLF | src/Package/PackageHelper.php:113 | Every LF in the output is preceded by CR. |
| PackageHelper.NoBareLFIsFixpoint | src/Package/PackageHelper.php:113 | Text without a bare LF is unchanged. |
| PackageHelper.ConvertIdempotent | src/Package/PackageHelper.php:113 | Converting twice is the same as converting once. |
| PackageHelper.ConvertLength | src/Package/PackageHelper.php:113 | The output is longer by exactly the number of bare LFs. |
| PackageHelper.ConvertOnlyInsertsCR | src/Package/PackageHelper.php:113 | With every CR removed, input and output are equal, so all other bytes stay in order. |
| PackageHelper.Utf8Length | src/Package/PackageHelper.php:86-89 | The UTF-8 form is longer by one byte per byte at or above 0x80. |
| PackageHelper.Utf8RoundTrip | src/Package/PackageHelper.php:86 | Decoding the ISO-8859-1 to UTF-8 conversion gives back the input. |
| PackageHelper.ConvertKeepsHighBytes | src/Package/PackageHelper.php:83-86 | Line-ending conversion keeps the number of bytes at or above 0x80. |
| PackageHelper.EncodePackageDescription | src/Package/PackageHelper.php:72-104 | Fails with the invalid-argument error iff the text is "" or "0". A compression failure is the only other error. On success, the text starts with `data:application/octet-stream;base64,` and bytes exceeds the raw length. |
| PackageHelper.DescriptionByteCount | src/Package/PackageHelper.php:80-89 | bytes = raw length + bare LFs + high bytes + 1. |
| PackageHelper.EncodePackageLogo | src/Package/PackageHelper.php:45-62 | Fails iff the base64 text or the MIME type is falsy. Otherwise the result is `data:` + MIME + `;base64,` + payload. |
| PackageHelper.CalculatePackageHash | src/Package/PackageHelper.php:124-144 | A missing file gives an invalid-argument error. When the test is not skipped, an algorithm `hash_algos()` does not list, compared exactly, gives one too. `hash_file` lower-cases the name before its lookup: when the lower-cased name is not listed, the result is `hash_file`'s ValueError (`UnknownAlgorithm`), which is not an Exception. A falsy digest is the Exception `HashFailed`. Success means the lower-cased name is listed, and returns the file's non-empty digest under that name. Every existing file whose name passes both tests and has a non-empty digest succeeds. |
| PackageHelper.UpperCaseAlgorithmHashed | src/Package/PackageHelper.php:132-137 | With the test skipped, "MD5" hashes the file with md5. With the test run, the exact `in_array` comparison rejects "MD5". |
| PackageHelper.UnknownAlgorithmReachesHashFile | src/Package/PackageHelper.php:132-137 | For an existing file and an unlisted algorithm, the default `skipTest = true` gives the ValueError, and `skipTest = false` gives the invalid-argument error. |
| RepositoryHelper.StampVersion | src/Repository/RepositoryHelper.php:45-46 | Byte 6 gets version 0100 and byte 8 gets variant 10. Their low bits and all other bytes are unchanged. |
| RepositoryHelper.FormatLayout | src/Repository/RepositoryHelper.php:47 | Hyphens sit at 8, 13, 18 and 23. Every other character is taken from the hex string in order. |
| RepositoryHelper.GenerateGuidV4 | src/Repository/RepositoryHelper.php:37-47 | 36 characters, with hyphens at 8, 13, 18 and 23 and lower-case hex elsewhere. Character 14 is `4` and character 19 is one of 8, 9, a and b. |
| RepositoryHelper.GuidEncodesBytes | src/Repository/RepositoryHelper.php:43-47 | Every input bit can be read back from the UUID, except the version and variant bits. |
| RepositoryHelper.RawUrlRoundTrip | src/Repository/RepositoryHelper.php:58 | Decoding `rawurlencode` gives back the input. |
| RepositoryHelper.JoinSplit | src/Repository/RepositoryHelper.php:58 | Imploding the exploded path gives back the path. |
| RepositoryHelper.SplitJoin | src/Repository/RepositoryHelper.php:58 | Exploding imploded separator-free segments gives back the segments. |
| RepositoryHelper.UrlEncodePathSegments | src/Repository/RepositoryHelper.php:55-63 | The segments of the result are the encoded segments of the input, in the same number and order, joined by `/`. |
| RepositoryHelper.UrlPathRoundTrip | src/Repository/RepositoryHelper.php:55-63 | Decoding the encoded path gives back the path with its separators written as `/`. |
| RepositoryHelper.UrlEncodePathAsWritten | src/Repository/RepositoryHelper.php:60 | As written, every call raises a TypeError. |
| RepositoryHelper.UrlEncodePathDefect | src/Repository/RepositoryHelper.php:60 | For "d/a b", the as-written encoder fails and the version without line 60 gives "d/a%20b". |
| ArchiveScan.Scan | src/Task/FolderRepositoryTask.php:120-160 | An unreadable listing fails with that directory. The older task uses the same definition as the newer one. |
| ArchiveScan.CollectStep | src/Task/GenerateFolderRepositoryTask.php:213-239 | Each entry adds exactly what it contributes. |
| ArchiveScan.CollectExactlyFound | src/Task/GenerateFolderRepositoryTask.php:202-242 | A path is returned iff some entry contributes it. An entry contributes if it is a zip file (case-insensitive extension) other than `.` and `..`, or, when recursive, an archive below a sub-directory. |
| ArchiveScan.CollectFailurePropagates | src/Task/GenerateFolderRepositoryTask.php:207-209 | An unreadable sub-directory anywhere fails the whole scan with that error. |
| ArchiveScan.NonRecursiveTopLevel | src/Task/GenerateFolderRepositoryTask.php:222-236 | Without recursion the scan succeeds and returns only top-level zip files. |
| ArchiveScan.GetAvailableArchives | src/Task/GenerateFolderRepositoryTask.php:202-242 | The loop with recursion returns exactly `Scan(dir, tree, recursive)`. |
| GenerateTask.RunTask | src/Task/GenerateFolderRepositoryTask.php:61-76 | Runs the generator iff there are 3 or 4 arguments, and shows help otherwise. `recursive` is the PHP bool of the 4th argument. |
| GenerateTask.FalseWordRecurses | src/Task/GenerateFolderRepositoryTask.php:70 | A 4th argument "false" turns recursion on, and "0" leaves it off. |
| GenerateTask.PruneStep | src/Task/GenerateFolderRepositoryTask.php:172-187 | One pruning step keeps validity and the global values. |
| GenerateTask.Prune | src/Task/GenerateFolderRepositoryTask.php:165-193 | Pruning keeps validity and the global values. |
| GenerateTask.PruneKeepsConsistent | src/Task/GenerateFolderRepositoryTask.php:184 | Pruning preserves `count == |records|`. |
| GenerateTask.KeepPresent | src/Task/GenerateFolderRepositoryTask.php:176-187 | The records whose archive is present, never more than the input. |
| GenerateTask.KeepPresentMeaning | src/Task/GenerateFolderRepositoryTask.php:176-187 | Kept records are input records whose archive exists. All records are kept iff every archive exists. |
| GenerateTask.RemovedAt | src/Task/GenerateFolderRepositoryTask.php:184 | Removing a record whose identity no earlier record shares deletes exactly that record. |
| GenerateTask.PruneExactlyMissing | src/Task/GenerateFolderRepositoryTask.php:165-193 | With distinct identities, exactly the records with a missing archive are removed. The archive is looked for at the URL, or at the root path when the URL is empty. The flag is true iff some archive was missing. |
| GenerateTask.DuplicatePruneRemovesWrongRecord | src/Task/GenerateFolderRepositoryTask.php:184 | With two records of one identity and only the first archive present, the record with the present archive is removed and the stale one stays. |
| GenerateTask.ArchiveStep | src/Task/GenerateFolderRepositoryTask.php:112-147 | An archive is skipped with the index unchanged, or exactly one record is appended and the count rises by 1. |
| GenerateTask.ArchiveStepMeaning | src/Task/GenerateFolderRepositoryTask.php:113-140 | An archive is added iff its package opens, its identity is not first recorded with the same byte size, and its record can be built. The record appended carries the custom URL. |
| GenerateTask.Reconcile | src/Task/GenerateFolderRepositoryTask.php:110-149 | The loop keeps validity and the global values. |
| GenerateTask.ReconcileAppends | src/Task/GenerateFolderRepositoryTask.php:110-149 | Existing records stay as a prefix. The flag is set iff records were added, and consistency is preserved. |
| GenerateTask.AddedThenSkipped | src/Task/GenerateFolderRepositoryTask.php:116-124 | An archive just added, with no earlier record of its identity, is skipped when met again. |
| GenerateTask.FirstIndexOfAppend | src/Task/GenerateFolderRepositoryTask.php:116-117 | Appending does not move the first match of a present identity. |
| GenerateTask.NonZipArchiveSkipped | src/Package/Package.php:159-165 | For an archive that is not a zip, the corrected loop step skips it and leaves the index unchanged. The as-written open check instead produces an error that is not an Exception, which the task's `catch (Exception)` would let through. |
| GenerateTask.StaleRecordReadded | src/Task/GenerateFolderRepositoryTask.php:116-143 | An identity first recorded with another size is appended again, next to its older record. Under the first-match lookup this model chooses for `containsRemotePackage`, it would be appended again on the next run too. |
| GenerateTask.CustomURLOfLayout | src/Task/GenerateFolderRepositoryTask.php:128-136 | A top-level archive gets no custom URL. An archive one folder down gets that folder + `/`. |
| GenerateTask.AppendedRecordURL | src/Task/GenerateFolderRepositoryTask.php:128-140 | The appended record's `getURL` is the custom URL. |
| GenerateTask.GenerateFolderRepositorySpec | src/Task/GenerateFolderRepositoryTask.php:86-158 | Fails with `RootNotDirectory` iff the root is not a directory. A successful run leaves a valid index. |
| GenerateTask.SavedIffChanged | src/Task/GenerateFolderRepositoryTask.php:152-155 | With distinct identities, the index is saved iff pruning removed a record or the loop added one. |
| GenerateTask.RunKeepsConsistent | src/Task/GenerateFolderRepositoryTask.php:86-158 | A run from a consistent index leaves a consistent index. |
| GenerateTask.CleanObsoletePackages | src/Task/GenerateFolderRepositoryTask.php:165-193 | The loop over the snapshot leaves exactly `Prune(old state, views)` and returns its flag. |
| GenerateTask.AddArchive | src/Task/GenerateFolderRepositoryTask.php:112-147 | The loop body leaves exactly `ArchiveStep(old state, archive)` and reports whether it added. |
| GenerateTask.GenerateFolderRepository | src/Task/GenerateFolderRepositoryTask.php:86-158 | The procedure returns exactly `GenerateFolderRepositorySpec`: the directory check, open, prune, scan, add and conditional save. |
| FolderTask.SubFolderOfLayout | src/Task/FolderRepositoryTask.php:69-77 | A top-level archive gets no download path. An archive one folder down gets the folder's name. |
| FolderTask.ArchiveRecord | src/Task/FolderRepositoryTask.php:63-86 | An archive contributes a record iff its package opens and its descriptor can be built. The record is a `remote` element with the package's ident, file and size. |
| FolderTask.NonZipArchiveLeftOut | src/Package/Package.php:159-165 | For an archive that is not a zip, the corrected rebuild contributes no record. The as-written open check instead produces an error that is not an Exception, which the task's `catch (Exception)` would let through. |
| FolderTask.RecordURL | src/Task/FolderRepositoryTask.php:69-79 | A record's `getURL` is its sub-folder, provided the dependencies element is not itself named `url`. The library always names it `dependencies` (src/Package/PackageXML.php:73). |
| FolderTask.Records | src/Task/FolderRepositoryTask.php:63-86 | There is at most one record per archive. |
| FolderTask.RecordsAreDescriptors | src/Task/FolderRepositoryTask.php:79 | Every record added is accepted by the descriptor view. |
| FolderTask.RebuildStep | src/Task/FolderRepositoryTask.php:65-84 | One step keeps validity and the global values. |
| FolderTask.Rebuild | src/Task/FolderRepositoryTask.php:63-86 | The loop keeps validity and the global values. |
| FolderTask.RebuildAppendsRecords | src/Task/FolderRepositoryTask.php:63-86 | The loop appends exactly the archives' records, in scan order, and raises the count by their number. |
| FolderTask.FolderRepositorySpec | src/Task/FolderRepositoryTask.php:39-94 | Fails with `RootNotDirectory` iff the root is not a directory. Success means the index was saved and is valid. |
| FolderTask.RunRebuildsFromScratch | src/Task/FolderRepositoryTask.php:50-91 | After a run, the records are exactly those of the archives found. The result is consistent unless the loaded index had no records and a non-zero count. |
| FolderTask.AddFolderArchive | src/Task/FolderRepositoryTask.php:65-84 | The loop body leaves exactly `RebuildStep(old state, archive)`. |
| FolderTask.GenerateFolderRepository | src/Task/FolderRepositoryTask.php:39-94 | The procedure returns exactly `FolderRepositorySpec`: the directory check, open, clean all, scan, add and unconditional save. |
| Php.IntDecimalRoundTrip | src/Repository/RemoteRepositoryXML.php:184 | An integer written into the count attribute reads back as that integer. |
| Php.DirNameOfJoin | src/Task/GenerateFolderRepositoryTask.php:128 | `dirname(dir/name)` is `dir` for a plain directory. |
| Php.BaseNameOfJoin | src/Package/Package.php:78 | `basename(dir/name)` is `name`. |

## Left out

- Serialising XML and parsing its text are not modelled. The same goes for `formatOutput`,
  whitespace, `importNode`, `__destruct`, entity escaping, DOM nodes that are not elements, and the
  position of the `uuid`, `title` and `downpath` leaves in the document. A document is a tree of
  element nodes.
- A successful `save` is not modelled. Only whether writing fails matters.
- `PackageXML.php` and `Task.php` are not part of this model. The manifest's identifier,
  dependencies, description and logo name come from the `parseManifest` oracle. A manifest the
  oracle rejects is `ManifestInvalid`.
- The following are oracles: `file_exists`, `is_dir`, `filesize`, `scandir`, `ZipArchive`, `finfo`,
  `base64_encode`, `gzcompress`, `hash_file`, `hash_algos` and Imagick's `createThumbnail`.
  `scandir` of a sub-directory is read from the listing tree. The listing says which entries are
  directories.
- `showHelp`, `echo`, `error_log` and every message text are console output and are left out.
- The `com_create_guid` branch of `generateGuidV4` is left out. `random_bytes(16)` is a 16-byte
  parameter.
- `DIRECTORY_SEPARATOR` is `/`. `urlEncodePath` takes the separator as a parameter (`/` or `\`).
- PackageHelper.CalculatePackageHash: PHP 7's `false` return from `hash_file` for an unknown
  algorithm is not modelled. The model follows PHP 8, which throws a ValueError (`UnknownAlgorithm`).
  The lower-casing before the lookup is ASCII only.
- The PHP 7 behaviour of line 60 of `RepositoryHelper.php` is not modelled. It is the PHP 8
  TypeError (see Findings).
- `RemotePackageList::__deconstruct` has no effect and is not modelled.
- Several methods are called but not defined in the modelled source files (RemoteRepositoryXML.php,
  RemotePackageDescriptor.php, Package.php). They get the smallest definitions their call sites need:
  - `calculatePackageMD5Hash` is `calculatePackageHash(path, "md5", true)`.
  - `Package::getRemoteDescriptor` is the generated record followed by a `url` child. The child
    holds the custom URL, else the download path, and is left out when both are empty.
  - `containsRemotePackage` and `getRemotePackageDescriptor` use the first record with the
    identity. A lookup through the identity catalog would find the last one instead, so the
    "appended again on every run" consequence of `StaleRecordReadded` holds for this choice only.
  - `getRemotePackageList` gives the records in document order.
  - `getRepositoryRootPath` returns the stored `downpath`.
  - `getFile` returns the `file` attribute.
  - `getURL` returns the text of the first `url` child.
  - `getIdentifier`, `getByteSize`, `setCustomURL` and `setDownloadPath` read or set the field of
    the same name.
- PHP's numeric strings are only an optional `-` followed by digits. Leading whitespace, `+`,
  floats and exponents are left out. So a `count` or `bytes` attribute in any other form counts as
  non-numeric.
- DescriptorView.GetURL: its own contract only covers a record without children. `FirstUrl`
  states the first-`url`-child rule.
- GenerateTask.PruneExactlyMissing: this holds only for indexes with distinct identities. Without
  them, `DuplicatePruneRemovesWrongRecord` shows it fails.
- GenerateTask.SavedIffChanged: the sizes are compared under the assumption of distinct
  identities. In general the save flag is `Prune`'s flag or `Reconcile`'s flag.
- A `PackageXML` that fails to parse ends in a TypeError in the PHP code, because it assigns
  `false` to a typed property. Here it is the Exception `ManifestInvalid`. As a result, both tasks
  skip such an archive and go on to save. The PHP run stops at that archive, and nothing is saved.
- The tasks are built on the corrected open check (`RetrieveInformationFromArchive`), not the one at
  line 160 of `Package.php` as written. Each of the next five lines states what this leaves out;
  `NonZipArchiveSkipped` and `NonZipArchiveLeftOut` state the difference for a non-zip archive.
- PackageBuilder.ReadPackage: an archive that `ZipArchive::open` rejects fails with the Exception
  `ArchiveUnreadable(code)`. As written, the next `getFromName` raises a ValueError, which is an
  Error and not an Exception.
- GenerateTask.ArchiveStep: an archive that `ZipArchive::open` rejects is skipped and the index is
  unchanged. As written, the ValueError escapes the loop's `catch (Exception)` and ends the run.
- FolderTask.ArchiveRecord: an archive that `ZipArchive::open` rejects contributes no record. As
  written, the ValueError escapes the loop's `catch (Exception)` and ends the run.
- GenerateTask.GenerateFolderRepositorySpec: a run whose scan finds an archive that
  `ZipArchive::open` rejects succeeds, and saves if anything changed. As written, the run ends at
  that archive without saving the pruned or extended index.
- FolderTask.FolderRepositorySpec: a run whose scan finds an archive that `ZipArchive::open`
  rejects succeeds and saves. As written, the run ends at that archive before `saveXML` (line 91),
  and the file on disk is left as it was.
- RepositoryXml.InitializeRepositoryXML: a document without an `Open_Mod_Manager_Repository`
  element fails with `NotARepository`. As written, storing the null `item(0)` in the typed `$root`
  property (line 80) is a TypeError, raised before the null check of lines 83-84. Either way,
  loading ends with an error.
- RepositoryHelper.UrlEncodePath: the `str_replace` of line 60 is left out. That line was meant to
  remove every `.`+separator occurrence, but as written it cannot run (see Findings). So a path
  such as `./a b` keeps its `./` (`./a%20b`). `UrlEncodePath` models lines 57-58 and 62: encode each
  segment, join with the separator, and turn separators into `/`.
- Three behaviours one might expect of an index are not in the code, and the model follows the code:
  - The downpath is stored raw, not URL-escaped (RemoteRepositoryXML.php:121-128).
  - Adding a package appends even when its identity is already present, though the TODO at
    RemoteRepositoryXML.php:167 intends a skip.
  - Loading does not resynchronise the count with the records; the `count` attribute is read as it
    is (RemoteRepositoryXML.php:139).

## Findings

| source | as written | input that shows it | evidently intended | confidence | as-written member | corrected member |
|---|---|---|---|---|---|---|
| src/Package/Package.php:160 | `$result != true` compares ZipArchive's integer error code loosely. Every non-zero code is truthy, so a failed open is not reported, and the next `getFromName` on the unopened archive raises a ValueError. That is an Error, which the tasks' `catch (Exception)` does not catch, so either task run ends there without saving. | A path whose `open` returns ER_NOZIP (19) | Throw an Exception for every failed open | not executed | PackageBuilder.OpenFailureEscapes | PackageBuilder.RetrieveInformationFromArchive |
| src/Package/Package.php:178-179 | `getFromName` returns false for a missing logo. Storing it in the `string $logoImageData` property coerces it to "", so the `=== false` test never holds. | A manifest naming `logo.png` in an archive without that entry | Throw the "logo not found" Exception | not executed | PackageBuilder.MissingLogoAccepted | PackageBuilder.RetrieveInformationFromArchive |
| src/Repository/RepositoryHelper.php:60 | `"." + DIRECTORY_SEPARATOR` is arithmetic on non-numeric strings, which PHP 8 rejects with a TypeError, so `urlEncodePath` never returns. | `urlEncodePath("d/a b")` | Return the path with each segment `rawurlencode`d and `/` as the separator. The corrected member leaves line 60 out, so it does not strip `./` (see Left out). | not executed | RepositoryHelper.UrlEncodePathDefect | RepositoryHelper.UrlEncodePath |
