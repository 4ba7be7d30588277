/**
 * FolderRepositoryTask: the older generator.  It empties the index, adds a
 * record for every archive found under the root folder that opens as a
 * package, and always saves.  An archive in a sub-folder records that
 * sub-folder, relative to the root, as its download path.
 */
module FolderTask {
  import opened Wrappers
  import opened Php
  import opened Xml
  import opened Environment
  import opened DescriptorView
  import opened PackageBuilder
  import opened RepositoryXml
  import opened ArchiveScan
  import opened GenerateTask

  /** The download path an archive gets: its directory with the root and the separator after it cut off. */
  function SubFolder(archiveFilePath: string, repositoryRootPath: string): string {
    var directoryName := DirName(archiveFilePath);
    if |directoryName| != |repositoryRootPath| then Substr(directoryName, |repositoryRootPath| + 1) else ""
  }

  /** An archive directly in the root folder gets no download path; one a folder below gets that folder's name. */
  lemma SubFolderOfLayout(root: string, sub: string, name: string)
    requires IsPlainDirectory(root) && IsComponent(sub) && IsComponent(name)
    ensures SubFolder(root + [Separator] + name, root) == ""
    ensures SubFolder(root + [Separator] + sub + [Separator] + name, root) == sub
  {
    DirNameOfJoin(root, name);
    var dir := root + [Separator] + sub;
    assert IsPlainDirectory(dir) by {
      assert dir[|dir| - 1] == sub[|sub| - 1];
    }
    DirNameOfJoin(dir, name);
    assert dir[|root| + 1..] == sub;
  }

  /** The record an archive contributes: none when it does not open as a package or its record cannot be built. */
  function ArchiveRecord(archiveFilePath: string, repositoryRootPath: string, fs: FileSystem, codecs: Codecs)
    : (r: Option<Node>)
    ensures var read := ReadPackage(archiveFilePath, fs, codecs);
      r.Some? <==> read.Success? && GenerateRemotePackageDescriptor(read.value, fs, codecs).Success?
    ensures r.Some? ==>
      var info := ReadPackage(archiveFilePath, fs, codecs).value;
      && r.value.name == TagRemote
      && GetAttribute(r.value, AttributeIdent) == info.packageXML.identifier
      && GetAttribute(r.value, AttributeFile) == info.packageArchiveFile
      && ParseInt(GetAttribute(r.value, AttributeBytes)) == Some(info.packageByteSize as int)
  {
    match ReadPackage(archiveFilePath, fs, codecs)
    case Failure(_) => None
    case Success(info) =>
      match RemoteDescriptor(info, SubFolder(archiveFilePath, repositoryRootPath), fs, codecs)
      case Failure(_) => None
      case Success(record) => Some(record)
  }

  /**
   * Like the newer task, the rebuild follows the corrected open check: an
   * archive that is not a zip contributes no record, where the open check
   * as written lets an Error through that `catch (Exception)` does not stop.
   */
  lemma NonZipArchiveLeftOut(repositoryRootPath: string)
    ensures ArchiveRecord(repositoryRootPath + "/a.zip", repositoryRootPath, NotAZip(), ManifestNamingLogo()).None?
    ensures !IsException(RetrieveInformationAsWritten(repositoryRootPath + "/a.zip", NotAZip(), ManifestNamingLogo()).error)
  {
    assert ReadPackage(repositoryRootPath + "/a.zip", NotAZip(), ManifestNamingLogo()).Failure?;
  }

  /** A record reads back its sub-folder as its url, when the manifest's dependencies element is not itself named `url`. */
  lemma RecordURL(archiveFilePath: string, repositoryRootPath: string, fs: FileSystem, codecs: Codecs)
    requires ArchiveRecord(archiveFilePath, repositoryRootPath, fs, codecs).Some?
    requires var d := ReadPackage(archiveFilePath, fs, codecs).value.packageXML.dependencies;
      d.None? || d.value.name != TagUrl
    ensures GetURL(RemotePackageDescriptor(ArchiveRecord(archiveFilePath, repositoryRootPath, fs, codecs).value))
      == SubFolder(archiveFilePath, repositoryRootPath)
  {
    LocationReadBack(ReadPackage(archiveFilePath, fs, codecs).value, SubFolder(archiveFilePath, repositoryRootPath), fs, codecs);
  }

  /** The records of the archives, in the order the scan found them. */
  function Records(archives: seq<string>, repositoryRootPath: string, fs: FileSystem, codecs: Codecs): (r: seq<Node>)
    ensures |r| <= |archives|
    decreases |archives|
  {
    if archives == [] then []
    else
      var last := ArchiveRecord(archives[|archives| - 1], repositoryRootPath, fs, codecs);
      Records(archives[..|archives| - 1], repositoryRootPath, fs, codecs) + (if last.Some? then [last.value] else [])
  }

  /** Every record listed is a `remote` element for a package with an identity. */
  lemma {:induction false} RecordsAreDescriptors(archives: seq<string>, repositoryRootPath: string, fs: FileSystem, codecs: Codecs)
    ensures forall n :: n in Records(archives, repositoryRootPath, fs, codecs) ==>
      NewRemotePackageDescriptor(n) == Success(RemotePackageDescriptor(n))
    decreases |archives|
  {
    if archives != [] {
      RecordsAreDescriptors(archives[..|archives| - 1], repositoryRootPath, fs, codecs);
    }
  }

  /** One archive of the loop: its record appended, or the index unchanged. */
  function RebuildStep(st: RepoState, archiveFilePath: string, repositoryRootPath: string, fs: FileSystem, codecs: Codecs)
    : (r: RepoState)
    requires Valid(st)
    ensures Valid(r) && SameGlobals(r, st)
  {
    match ArchiveRecord(archiveFilePath, repositoryRootPath, fs, codecs)
    case None => st
    case Some(record) => Appended(st, record)
  }

  /** The loop over the archives. */
  function Rebuild(st: RepoState, archives: seq<string>, repositoryRootPath: string, fs: FileSystem, codecs: Codecs)
    : (r: RepoState)
    requires Valid(st)
    ensures Valid(r) && SameGlobals(r, st)
    decreases |archives|
  {
    if archives == [] then st
    else RebuildStep(Rebuild(st, archives[..|archives| - 1], repositoryRootPath, fs, codecs), archives[|archives| - 1], repositoryRootPath, fs, codecs)
  }

  lemma RebuildSnoc(st: RepoState, archives: seq<string>, k: nat, repositoryRootPath: string, fs: FileSystem, codecs: Codecs)
    requires Valid(st) && 0 < k <= |archives|
    ensures Rebuild(st, archives[..k], repositoryRootPath, fs, codecs)
      == RebuildStep(Rebuild(st, archives[..k - 1], repositoryRootPath, fs, codecs), archives[k - 1], repositoryRootPath, fs, codecs)
    ensures Records(archives[..k], repositoryRootPath, fs, codecs)
      == Records(archives[..k - 1], repositoryRootPath, fs, codecs)
         + (var last := ArchiveRecord(archives[k - 1], repositoryRootPath, fs, codecs); if last.Some? then [last.value] else [])
  {
    assert archives[..k][..k - 1] == archives[..k - 1];
  }

  /** The loop appends exactly the archives' records, and the count rises by their number. */
  lemma {:induction false} RebuildAppendsRecords(st: RepoState, archives: seq<string>, repositoryRootPath: string, fs: FileSystem, codecs: Codecs)
    requires Valid(st)
    ensures var r := Rebuild(st, archives, repositoryRootPath, fs, codecs);
      var records := Records(archives, repositoryRootPath, fs, codecs);
      && r.remotes.children == st.remotes.children + records
      && r.remoteCount == st.remoteCount + |records|
    decreases |archives|
  {
    if archives != [] {
      var k := |archives|;
      RebuildAppendsRecords(st, archives[..k - 1], repositoryRootPath, fs, codecs);
      RebuildSnoc(st, archives, k, repositoryRootPath, fs, codecs);
      assert archives[..k] == archives;
      var records := Records(archives[..k - 1], repositoryRootPath, fs, codecs);
      var last := ArchiveRecord(archives[k - 1], repositoryRootPath, fs, codecs);
      if last.Some? {
        assert st.remotes.children + records + [last.value] == st.remotes.children + (records + [last.value]);
      }
    }
  }

  /** `generateFolderRepository`, start to finish. */
  function FolderRepositorySpec(xmlName: string, repositoryName: string, repositoryRootPath: string,
                                recursive: bool, fs: FileSystem, codecs: Codecs, randomBytes: seq<bv8>)
    : (r: Result<RepoState, TaskError>)
    requires |randomBytes| == 16
    ensures r == Failure(RootNotDirectory) <==> !fs.isDir(repositoryRootPath)
    ensures r.Success? ==> Valid(r.value) && fs.saveSucceeds(xmlName)
  {
    if !fs.isDir(repositoryRootPath) then Failure(RootNotDirectory)
    else match LoadRepository(fs.repositoryXml(xmlName), repositoryName, repositoryRootPath, randomBytes)
      case Failure(e) => Failure(RepositoryFailed(e))
      case Success(loaded) =>
        match Scan(repositoryRootPath, fs.listing(repositoryRootPath), recursive)
        case Failure(e) => Failure(ScanFailed(e))
        case Success(archives) =>
          var rebuilt := Rebuild(Cleaned(loaded), archives, repositoryRootPath, fs, codecs);
          if fs.saveSucceeds(xmlName) then Success(rebuilt) else Failure(RepositoryFailed(SaveFailed))
  }

  /**
   * A run that succeeds leaves exactly the records of the archives found,
   * in scan order, whatever the index held before; the count matches them
   * unless the loaded index had no records and a count other than zero.
   */
  lemma RunRebuildsFromScratch(xmlName: string, repositoryName: string, repositoryRootPath: string,
                               recursive: bool, fs: FileSystem, codecs: Codecs, randomBytes: seq<bv8>)
    requires |randomBytes| == 16
    requires FolderRepositorySpec(xmlName, repositoryName, repositoryRootPath, recursive, fs, codecs, randomBytes).Success?
    ensures var loaded := LoadRepository(fs.repositoryXml(xmlName), repositoryName, repositoryRootPath, randomBytes).value;
      var archives := Scan(repositoryRootPath, fs.listing(repositoryRootPath), recursive).value;
      var r := FolderRepositorySpec(xmlName, repositoryName, repositoryRootPath, recursive, fs, codecs, randomBytes).value;
      && r.remotes.children == Records(archives, repositoryRootPath, fs, codecs)
      && (loaded.remotes.children != [] || Consistent(loaded) ==> Consistent(r))
      && (loaded.remotes.children == [] ==> r.remoteCount == loaded.remoteCount + |r.remotes.children|)
  {
    var loaded := LoadRepository(fs.repositoryXml(xmlName), repositoryName, repositoryRootPath, randomBytes).value;
    var archives := Scan(repositoryRootPath, fs.listing(repositoryRootPath), recursive).value;
    RebuildAppendsRecords(Cleaned(loaded), archives, repositoryRootPath, fs, codecs);
    if loaded.remotes.children != [] {
      CleanResetsCount(loaded);
    }
  }

  /**
   * The body of the archive loop: open the package, give it the sub-folder
   * as download path when it is not in the root folder, and add its record.
   * A package that cannot be opened or described is skipped.
   */
  method AddFolderArchive(remoteRepository: RemoteRepositoryXML, archiveFilePath: string, repositoryRootPath: string,
                          fs: FileSystem, codecs: Codecs)
    requires remoteRepository.IsValid()
    modifies remoteRepository
    ensures remoteRepository.IsValid()
    ensures remoteRepository.repositoryFileName == old(remoteRepository.repositoryFileName)
    ensures remoteRepository.State()
      == RebuildStep(old(remoteRepository.State()), archiveFilePath, repositoryRootPath, fs, codecs)
  {
    var opening := Package.Open(archiveFilePath, fs, codecs);
    if opening.Failure? {
      // every error of the constructor is an Exception: logged and skipped
      return;
    }
    var package := opening.value;
    var directoryName := DirName(archiveFilePath);
    if |directoryName| != |repositoryRootPath| {
      var subFolder := Substr(directoryName, |repositoryRootPath| + 1);
      package.SetDownloadPath(subFolder);
    }
    assert package.Location() == SubFolder(archiveFilePath, repositoryRootPath);
    var err := remoteRepository.AddRemotePackage(package, fs, codecs);
  }

  /** `generateFolderRepository`: check the root, open, empty, scan, add, save. */
  method GenerateFolderRepository(xmlName: string, repositoryName: string, repositoryRootPath: string,
                                  recursive: bool, fs: FileSystem, codecs: Codecs, randomBytes: seq<bv8>)
    returns (r: Result<RepoState, TaskError>)
    requires |randomBytes| == 16
    ensures r == FolderRepositorySpec(xmlName, repositoryName, repositoryRootPath, recursive, fs, codecs, randomBytes)
  {
    if !fs.isDir(repositoryRootPath) {
      return Failure(RootNotDirectory);
    }
    var openResult := RemoteRepositoryXML.Open(xmlName, repositoryName, repositoryRootPath, fs, randomBytes);
    if openResult.Failure? {
      return Failure(RepositoryFailed(openResult.error));
    }
    var remoteRepository := openResult.value;
    remoteRepository.CleanAllRemotePackages();
    var available := GetAvailableArchives(repositoryRootPath, fs.listing(repositoryRootPath), recursive);
    if available.Failure? {
      return Failure(ScanFailed(available.error));
    }
    var availableArchives := available.value;
    ghost var cleaned := remoteRepository.State();
    for i := 0 to |availableArchives|
      invariant remoteRepository.IsValid()
      invariant remoteRepository.repositoryFileName == xmlName
      invariant remoteRepository.State() == Rebuild(cleaned, availableArchives[..i], repositoryRootPath, fs, codecs)
    {
      RebuildSnoc(cleaned, availableArchives, i + 1, repositoryRootPath, fs, codecs);
      AddFolderArchive(remoteRepository, availableArchives[i], repositoryRootPath, fs, codecs);
    }
    assert availableArchives[..|availableArchives|] == availableArchives;
    var saved := remoteRepository.SaveXML(fs);
    if saved.Failure? {
      return Failure(RepositoryFailed(saved.error));
    }
    r := Success(remoteRepository.State());
  }
}
