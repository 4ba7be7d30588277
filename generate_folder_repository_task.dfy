/**
 * GenerateFolderRepositoryTask: brings an existing repository index in line
 * with the archives under a root folder.  Records whose archive is gone are
 * pruned, archives already indexed with the same byte size are skipped,
 * the others are appended, and the index is saved only when something
 * changed.
 */
module GenerateTask {
  import opened Wrappers
  import opened Php
  import opened Xml
  import opened Environment
  import opened DescriptorView
  import opened PackageBuilder
  import opened RepositoryXml
  import opened ArchiveScan

  datatype TaskError =
    | RootNotDirectory
    | RepositoryFailed(repoError: RepoError)
    | ScanFailed(scanError: ScanError)

  /** The index the run leaves behind, and whether it was written. */
  datatype Outcome = Outcome(state: RepoState, saved: bool)

  datatype Command =
    | Generate(xmlName: string, repositoryName: string, repositoryRootPath: string, recursive: bool)
    | ShowHelp

  /**
   * `runTask`: three or four arguments run the generator, anything else
   * shows the help.  The fourth argument reaches a `bool` parameter, so PHP
   * converts it: only "" and "0" are false.
   */
  function RunTask(arguments: seq<string>): (c: Command)
    ensures c.Generate? <==> |arguments| == 3 || |arguments| == 4
    ensures c.Generate? ==>
      && c.xmlName == arguments[0] && c.repositoryName == arguments[1] && c.repositoryRootPath == arguments[2]
      && (c.recursive <==> |arguments| == 4 && !EmptyString(arguments[3]))
  {
    if |arguments| == 3 then Generate(arguments[0], arguments[1], arguments[2], false)
    else if |arguments| == 4 then Generate(arguments[0], arguments[1], arguments[2], !EmptyString(arguments[3]))
    else ShowHelp
  }

  /** The word "false" on the command line turns recursion on. */
  lemma FalseWordRecurses()
    ensures RunTask(["repo.xml", "Mods", "/srv/mods", "false"]).recursive
    ensures !RunTask(["repo.xml", "Mods", "/srv/mods", "0"]).recursive
  {
  }

  // ------------------------------------------------------------ pruning

  /** Where `cleanObsoletePackages` looks for a record's archive: its url, or the root path when the url is empty. */
  function PackagePath(view: RemotePackageDescriptor, rootPath: string): string {
    var url := GetURL(view);
    (if EmptyString(url) then rootPath else url) + [Separator] + GetFile(view)
  }

  function PruneStep(st: RepoState, view: RemotePackageDescriptor, fs: FileSystem): (r: (RepoState, bool))
    requires Valid(st)
    ensures Valid(r.0) && SameGlobals(r.0, st)
  {
    if fs.fileExists(PackagePath(view, st.downpath)) then (st, false)
    else (Removed(st, GetIdentity(view)), true)
  }

  /** The pruning loop over a snapshot of the records: the new index and whether anything was removed. */
  function Prune(st: RepoState, views: seq<RemotePackageDescriptor>, fs: FileSystem): (r: (RepoState, bool))
    requires Valid(st)
    ensures Valid(r.0) && SameGlobals(r.0, st)
    decreases |views|
  {
    if views == [] then (st, false)
    else
      var previous := Prune(st, views[..|views| - 1], fs);
      var step := PruneStep(previous.0, views[|views| - 1], fs);
      (step.0, previous.1 || step.1)
  }

  /** Pruning keeps `count == |records|` when it held before. */
  lemma {:induction false} PruneKeepsConsistent(st: RepoState, views: seq<RemotePackageDescriptor>, fs: FileSystem)
    requires Valid(st) && Consistent(st)
    ensures Consistent(Prune(st, views, fs).0)
    decreases |views|
  {
    if views != [] {
      PruneKeepsConsistent(st, views[..|views| - 1], fs);
      var previous := Prune(st, views[..|views| - 1], fs);
      TransitionsKeepConsistent(previous.0, Leaf("", ""), GetIdentity(views[|views| - 1]));
    }
  }

  /** The record's archive is where the pruning looks for it. */
  predicate Present(record: Node, rootPath: string, fs: FileSystem) {
    fs.fileExists(PackagePath(RemotePackageDescriptor(record), rootPath))
  }

  /** The records whose archive is present, in order. */
  function KeepPresent(records: seq<Node>, rootPath: string, fs: FileSystem): (r: seq<Node>)
    ensures |r| <= |records|
  {
    if records == [] then []
    else
      var last := records[|records| - 1];
      KeepPresent(records[..|records| - 1], rootPath, fs) + (if Present(last, rootPath, fs) then [last] else [])
  }

  /** The kept records are records of the input whose archive is present, and all are kept exactly when all are present. */
  lemma {:induction false} KeepPresentMeaning(records: seq<Node>, rootPath: string, fs: FileSystem)
    ensures forall n :: n in KeepPresent(records, rootPath, fs) ==> n in records && Present(n, rootPath, fs)
    ensures |KeepPresent(records, rootPath, fs)| == |records|
      <==> forall i :: 0 <= i < |records| ==> Present(records[i], rootPath, fs)
    decreases |records|
  {
    if records != [] {
      var pre := records[..|records| - 1];
      KeepPresentMeaning(pre, rootPath, fs);
      assert forall i :: 0 <= i < |pre| ==> pre[i] == records[i];
      assert forall n :: n in pre ==> n in records;
    }
  }

  predicate UniqueIdents(records: seq<Node>) {
    forall i, j :: 0 <= i < j < |records| ==> IdentOf(records[i]) != IdentOf(records[j])
  }

  /** Removing the identity of a record that no earlier record shares deletes exactly that record. */
  lemma RemovedAt(st: RepoState, before: seq<Node>, record: Node, after: seq<Node>)
    requires Valid(st) && st.remotes.children == before + [record] + after
    requires forall j :: 0 <= j < |before| ==> IdentOf(before[j]) != IdentOf(record)
    ensures Removed(st, IdentOf(record)).remotes.children == before + after
  {
    var c := st.remotes.children;
    assert c[|before|] == record;
    assert forall j :: 0 <= j < |before| ==> c[j] == before[j];
    assert FirstIndexOf(c, IdentOf(record)) == Some(|before|);
    assert c[..|before|] == before;
    assert c[|before| + 1..] == after;
  }

  /** One step of the pruning over the k-th record of the snapshot. */
  lemma PruneStepAt(st: RepoState, kept: seq<Node>, c: seq<Node>, k: nat, fs: FileSystem)
    requires Valid(st) && UniqueIdents(c) && k < |c|
    requires st.remotes.children == kept + c[k..]
    requires forall n :: n in kept ==> n in c[..k]
    ensures var step := PruneStep(st, RemotePackageDescriptor(c[k]), fs);
      && (step.1 <==> !Present(c[k], st.downpath, fs))
      && step.0.remotes.children == (if Present(c[k], st.downpath, fs) then kept + [c[k]] else kept) + c[k + 1..]
  {
    assert c[k..] == [c[k]] + c[k + 1..];
    if !Present(c[k], st.downpath, fs) {
      forall j | 0 <= j < |kept| ensures IdentOf(kept[j]) != IdentOf(c[k]) {
        assert kept[j] in c[..k];
        var i :| 0 <= i < k && c[..k][i] == kept[j];
        assert c[i] == kept[j];
      }
      assert st.remotes.children == kept + [c[k]] + c[k + 1..];
      RemovedAt(st, kept, c[k], c[k + 1..]);
    }
  }

  lemma KeepPresentPrefix(c: seq<Node>, k: nat, rootPath: string, fs: FileSystem)
    requires 0 < k <= |c|
    ensures KeepPresent(c[..k], rootPath, fs)
      == KeepPresent(c[..k - 1], rootPath, fs) + (if Present(c[k - 1], rootPath, fs) then [c[k - 1]] else [])
  {
    assert c[..k][..k - 1] == c[..k - 1];
  }

  lemma PruneSnoc(st: RepoState, views: seq<RemotePackageDescriptor>, k: nat, fs: FileSystem)
    requires Valid(st) && 0 < k <= |views|
    ensures var previous := Prune(st, views[..k - 1], fs);
      var step := PruneStep(previous.0, views[k - 1], fs);
      Prune(st, views[..k], fs) == (step.0, previous.1 || step.1)
  {
    assert views[..k][..k - 1] == views[..k - 1];
  }

  /** Bookkeeping of one pruning step, with the presence test as a plain boolean. */
  lemma CombineSteps(kept: seq<Node>, c: seq<Node>, k: nat, present: bool, previousFlag: bool, stepFlag: bool, children: seq<Node>)
    requires 0 < k <= |c| && |kept| <= k - 1
    requires previousFlag <==> |kept| < k - 1
    requires stepFlag <==> !present
    requires children == (if present then kept + [c[k - 1]] else kept) + c[k..]
    ensures var next := kept + (if present then [c[k - 1]] else []);
      && children == next + c[k..]
      && (previousFlag || stepFlag <==> |next| < k)
  {
  }

  lemma {:induction false} PruneInvariant(st: RepoState, fs: FileSystem, k: nat)
    requires Valid(st) && UniqueIdents(st.remotes.children) && k <= |st.remotes.children|
    ensures var c := st.remotes.children;
      var r := Prune(st, Views(c)[..k], fs);
      var kept := KeepPresent(c[..k], st.downpath, fs);
      && r.0.remotes.children == kept + c[k..]
      && (r.1 <==> |kept| < k)
    decreases k
  {
    var c := st.remotes.children;
    var root := st.downpath;
    if k == 0 {
      assert Views(c)[..0] == [];
      assert c[..0] == [] && c[0..] == c;
    } else {
      PruneInvariant(st, fs, k - 1);
      var views := Views(c)[..k];
      assert views[..k - 1] == Views(c)[..k - 1];
      var previous := Prune(st, Views(c)[..k - 1], fs);
      var kept := KeepPresent(c[..k - 1], root, fs);
      assert views[k - 1] == RemotePackageDescriptor(c[k - 1]);
      assert previous.0.downpath == root;
      KeepPresentMeaning(c[..k - 1], root, fs);
      PruneStepAt(previous.0, kept, c, k - 1, fs);
      KeepPresentPrefix(c, k, root, fs);
      PruneSnoc(st, Views(c), k, fs);
      assert Views(c)[k - 1] == RemotePackageDescriptor(c[k - 1]);
      var step := PruneStep(previous.0, RemotePackageDescriptor(c[k - 1]), fs);
      CombineSteps(kept, c, k, Present(c[k - 1], root, fs), previous.1, step.1, step.0.remotes.children);
    }
  }

  /**
   * With distinct identities, pruning removes exactly the records whose
   * archive is missing and reports whether there was one.
   */
  lemma PruneExactlyMissing(st: RepoState, fs: FileSystem)
    requires Valid(st) && UniqueIdents(st.remotes.children)
    ensures var c := st.remotes.children;
      var r := Prune(st, Views(c), fs);
      && r.0.remotes.children == KeepPresent(c, st.downpath, fs)
      && (r.1 <==> exists i :: 0 <= i < |c| && !Present(c[i], st.downpath, fs))
      && (r.1 <==> |r.0.remotes.children| < |c|)
  {
    var c := st.remotes.children;
    PruneInvariant(st, fs, |c|);
    KeepPresentMeaning(c, st.downpath, fs);
    assert Views(c)[..|c|] == Views(c);
    assert c[..|c|] == c && c[|c|..] == [];
  }

  function DuplicateRecord(file: string): Node {
    Node(TagRemote, map[AttributeIdent := "mod", AttributeFile := file], "", [])
  }

  function DuplicateIndex(): RepoState {
    RepoState("", "", "/srv", Node(TagRemotes, map[RemotesCount := "2"], "", [DuplicateRecord("old.zip"), DuplicateRecord("new.zip")]), 2)
  }

  function OnlyOldArchive(): FileSystem {
    FileSystem(
      p => p == "/srv/old.zip", _ => true, _ => 0, _ => Unreadable, _ => NoFile,
      _ => OpenError(19), (_, _) => None, _ => true)
  }

  /**
   * With a repeated identity, the record whose archive is missing is not
   * the one removed: removal by identity takes the first record, whose
   * archive is present, and the stale record stays.
   */
  lemma DuplicatePruneRemovesWrongRecord()
    ensures Valid(DuplicateIndex())
    ensures Prune(DuplicateIndex(), Views(DuplicateIndex().remotes.children), OnlyOldArchive()).0.remotes.children
      == [DuplicateRecord("new.zip")]
  {
    var st := DuplicateIndex();
    var fs := OnlyOldArchive();
    var c := st.remotes.children;
    var views := Views(c);
    assert ParseInt("2") == Some(2) by {
      assert AllDigits("2");
    }
    assert views[..1][..0] == [];
    assert views[..1] == [views[0]];
    assert views[..2] == views;
    assert GetURL(views[0]) == "" && GetFile(views[0]) == "old.zip";
    assert PackagePath(views[0], "/srv") == "/srv/old.zip";
    assert GetURL(views[1]) == "" && GetFile(views[1]) == "new.zip";
    assert PackagePath(views[1], "/srv") == "/srv/new.zip";
    assert FirstIndexOf(c, "mod") == Some(0);
  }

  // ------------------------------------------------------------ adding

  /** `$remotePackage->getByteSize() == $package->getByteSize()`: a numeric string against an int. */
  predicate SameSize(byteSize: string, size: nat) {
    ParseInt(byteSize) == Some(size)
  }

  /** The custom URL an archive gets: its directory plus a separator when that differs in length from the root. */
  function CustomURL(archiveFilePath: string, repositoryRootPath: string): string {
    var directoryName := DirName(archiveFilePath);
    if |directoryName| != |repositoryRootPath| then directoryName + [Separator] else ""
  }

  /** The first record with the package's identity carries the same byte size. */
  predicate AlreadyPresent(st: RepoState, info: PackageInfo) {
    match FirstIndexOf(st.remotes.children, info.packageXML.identifier)
    case None => false
    case Some(i) => SameSize(GetAttribute(st.remotes.children[i], AttributeBytes), info.packageByteSize)
  }

  /** `next` is `st` with one more record at the end and the count raised by one. */
  predicate GrownByOne(st: RepoState, next: RepoState) {
    && |next.remotes.children| == |st.remotes.children| + 1
    && next.remotes.children[..|st.remotes.children|] == st.remotes.children
    && next.remoteCount == st.remoteCount + 1
  }

  /** One archive of the loop: skipped (index unchanged) or appended. */
  function ArchiveStep(st: RepoState, archiveFilePath: string, repositoryRootPath: string, fs: FileSystem, codecs: Codecs)
    : (r: (RepoState, bool))
    requires Valid(st)
    ensures Valid(r.0) && SameGlobals(r.0, st)
    ensures !r.1 ==> r.0 == st
    ensures r.1 ==> GrownByOne(st, r.0)
  {
    match ReadPackage(archiveFilePath, fs, codecs)
    case Failure(_) => (st, false)
    case Success(info) =>
      if AlreadyPresent(st, info) then (st, false)
      else match RemoteDescriptor(info, CustomURL(archiveFilePath, repositoryRootPath), fs, codecs)
        case Failure(_) => (st, false)
        case Success(record) =>
          var next := Appended(st, record);
          assert next.remotes.children[..|st.remotes.children|] == st.remotes.children;
          (next, true)
  }

  /**
   * An archive is added exactly when it opens as a package, its identity is
   * not first recorded with the same byte size, and its record can be
   * built; what is appended is that record, with the custom URL.
   */
  lemma ArchiveStepMeaning(st: RepoState, archiveFilePath: string, repositoryRootPath: string, fs: FileSystem, codecs: Codecs)
    requires Valid(st)
    ensures var read := ReadPackage(archiveFilePath, fs, codecs);
      var r := ArchiveStep(st, archiveFilePath, repositoryRootPath, fs, codecs);
      && (r.1 <==>
        && read.Success?
        && !AlreadyPresent(st, read.value)
        && RemoteDescriptor(read.value, CustomURL(archiveFilePath, repositoryRootPath), fs, codecs).Success?)
      && (r.1 ==> r.0 == Appended(st, RemoteDescriptor(read.value, CustomURL(archiveFilePath, repositoryRootPath), fs, codecs).value))
  {
  }

  /** The loop over the archives: the new index and whether anything was added. */
  function Reconcile(st: RepoState, archives: seq<string>, repositoryRootPath: string, fs: FileSystem, codecs: Codecs)
    : (r: (RepoState, bool))
    requires Valid(st)
    ensures Valid(r.0) && SameGlobals(r.0, st)
    decreases |archives|
  {
    if archives == [] then (st, false)
    else
      var previous := Reconcile(st, archives[..|archives| - 1], repositoryRootPath, fs, codecs);
      var step := ArchiveStep(previous.0, archives[|archives| - 1], repositoryRootPath, fs, codecs);
      (step.0, previous.1 || step.1)
  }

  lemma ReconcileSnoc(st: RepoState, archives: seq<string>, k: nat, repositoryRootPath: string, fs: FileSystem, codecs: Codecs)
    requires Valid(st) && 0 < k <= |archives|
    ensures var previous := Reconcile(st, archives[..k - 1], repositoryRootPath, fs, codecs);
      var step := ArchiveStep(previous.0, archives[k - 1], repositoryRootPath, fs, codecs);
      Reconcile(st, archives[..k], repositoryRootPath, fs, codecs) == (step.0, previous.1 || step.1)
  {
    assert archives[..k][..k - 1] == archives[..k - 1];
  }

  /** Bookkeeping of one reconciliation step on the record sequences. */
  lemma GrowthSteps(st: RepoState, previous: RepoState, next: RepoState, previousFlag: bool, stepFlag: bool)
    requires |st.remotes.children| <= |previous.remotes.children|
    requires previous.remotes.children[..|st.remotes.children|] == st.remotes.children
    requires previousFlag <==> |previous.remotes.children| > |st.remotes.children|
    requires !stepFlag ==> next == previous
    requires stepFlag ==> GrownByOne(previous, next)
    ensures |st.remotes.children| <= |next.remotes.children|
    ensures next.remotes.children[..|st.remotes.children|] == st.remotes.children
    ensures previousFlag || stepFlag <==> |next.remotes.children| > |st.remotes.children|
    ensures Consistent(previous) ==> Consistent(next)
  {
    if stepFlag {
      var n := |st.remotes.children|;
      assert next.remotes.children[..n] == next.remotes.children[..|previous.remotes.children|][..n];
    }
  }

  /**
   * The loop only appends: existing records stay in place, the count
   * invariant is kept, and the flag is set exactly when records were added.
   */
  lemma {:induction false} ReconcileAppends(st: RepoState, archives: seq<string>, repositoryRootPath: string, fs: FileSystem, codecs: Codecs)
    requires Valid(st)
    ensures var r := Reconcile(st, archives, repositoryRootPath, fs, codecs);
      && |st.remotes.children| <= |r.0.remotes.children|
      && r.0.remotes.children[..|st.remotes.children|] == st.remotes.children
      && (r.1 <==> |r.0.remotes.children| > |st.remotes.children|)
      && (Consistent(st) ==> Consistent(r.0))
    decreases |archives|
  {
    if archives == [] {
      assert st.remotes.children[..|st.remotes.children|] == st.remotes.children;
    } else {
      var k := |archives|;
      ReconcileAppends(st, archives[..k - 1], repositoryRootPath, fs, codecs);
      ReconcileSnoc(st, archives, k, repositoryRootPath, fs, codecs);
      assert archives[..k] == archives;
      var previous := Reconcile(st, archives[..k - 1], repositoryRootPath, fs, codecs);
      var step := ArchiveStep(previous.0, archives[k - 1], repositoryRootPath, fs, codecs);
      GrowthSteps(st, previous.0, step.0, previous.1, step.1);
    }
  }

  /** An archive just added is skipped when met again, unless an older record with its identity came first. */
  lemma AddedThenSkipped(st: RepoState, archiveFilePath: string, repositoryRootPath: string, fs: FileSystem, codecs: Codecs)
    requires Valid(st)
    requires ArchiveStep(st, archiveFilePath, repositoryRootPath, fs, codecs).1
    requires FirstIndexOf(st.remotes.children, ReadPackage(archiveFilePath, fs, codecs).value.packageXML.identifier).None?
    ensures var next := ArchiveStep(st, archiveFilePath, repositoryRootPath, fs, codecs).0;
      ArchiveStep(next, archiveFilePath, repositoryRootPath, fs, codecs) == (next, false)
  {
    var info := ReadPackage(archiveFilePath, fs, codecs).value;
    var record := RemoteDescriptor(info, CustomURL(archiveFilePath, repositoryRootPath), fs, codecs).value;
    ArchiveStepMeaning(st, archiveFilePath, repositoryRootPath, fs, codecs);
    var next := Appended(st, record);
    assert IdentOf(record) == info.packageXML.identifier && SameSize(GetAttribute(record, AttributeBytes), info.packageByteSize) by {
      var g := GenerateRemotePackageDescriptor(info, fs, codecs).value;
      assert record.attrs == g.attrs;
    }
    AppendedIsPresent(st, info, record);
    ArchiveStepMeaning(next, archiveFilePath, repositoryRootPath, fs, codecs);
  }

  /** After appending a package's own record to an index without its identity, that record is the first match and has the package's size. */
  lemma AppendedIsPresent(st: RepoState, info: PackageInfo, record: Node)
    requires Valid(st)
    requires IdentOf(record) == info.packageXML.identifier
    requires SameSize(GetAttribute(record, AttributeBytes), info.packageByteSize)
    requires FirstIndexOf(st.remotes.children, info.packageXML.identifier).None?
    ensures AlreadyPresent(Appended(st, record), info)
  {
    var c := st.remotes.children;
    assert Appended(st, record).remotes.children == c + [record];
    assert (c + [record])[|c|] == record;
    assert forall j :: 0 <= j < |c| ==> (c + [record])[j] == c[j];
    assert FirstIndexOf(c + [record], info.packageXML.identifier) == Some(|c|);
  }

  /** Appending a record does not move the first match of an identity already present. */
  lemma FirstIndexOfAppend(c: seq<Node>, record: Node, ident: string)
    requires FirstIndexOf(c, ident).Some?
    ensures FirstIndexOf(c + [record], ident) == FirstIndexOf(c, ident)
  {
    var i := FirstIndexOf(c, ident).value;
    assert (c + [record])[i] == c[i];
    assert forall j :: 0 <= j < i ==> (c + [record])[j] == c[j];
  }

  /**
   * The loop follows the corrected open check: an archive that is not a zip
   * is skipped with the index unchanged, where the open check as written
   * lets an Error through that the loop's `catch (Exception)` does not stop.
   */
  lemma NonZipArchiveSkipped(st: RepoState, repositoryRootPath: string)
    requires Valid(st)
    ensures ArchiveStep(st, repositoryRootPath + "/a.zip", repositoryRootPath, NotAZip(), ManifestNamingLogo()) == (st, false)
    ensures !IsException(RetrieveInformationAsWritten(repositoryRootPath + "/a.zip", NotAZip(), ManifestNamingLogo()).error)
  {
    var path := repositoryRootPath + "/a.zip";
    assert ReadPackage(path, NotAZip(), ManifestNamingLogo()).Failure?;
  }

  /**
   * An archive whose identity is first recorded with another byte size is
   * appended next to that record, which `addRemotePackage` never replaces.
   * With the first-match lookup chosen here for `containsRemotePackage`, the
   * next run appends it again; a last-match lookup would skip it instead.
   */
  lemma StaleRecordReadded(st: RepoState, archiveFilePath: string, repositoryRootPath: string, fs: FileSystem, codecs: Codecs)
    requires Valid(st)
    requires ArchiveStep(st, archiveFilePath, repositoryRootPath, fs, codecs).1
    requires FirstIndexOf(st.remotes.children, ReadPackage(archiveFilePath, fs, codecs).value.packageXML.identifier).Some?
    ensures var next := ArchiveStep(st, archiveFilePath, repositoryRootPath, fs, codecs);
      && ArchiveStep(next.0, archiveFilePath, repositoryRootPath, fs, codecs).1
      && |next.0.remotes.children| == |st.remotes.children| + 1
  {
    var info := ReadPackage(archiveFilePath, fs, codecs).value;
    var record := RemoteDescriptor(info, CustomURL(archiveFilePath, repositoryRootPath), fs, codecs).value;
    var next := ArchiveStep(st, archiveFilePath, repositoryRootPath, fs, codecs).0;
    var c := st.remotes.children;
    var i := FirstIndexOf(c, info.packageXML.identifier).value;
    ArchiveStepMeaning(st, archiveFilePath, repositoryRootPath, fs, codecs);
    assert next.remotes.children == c + [record];
    FirstIndexOfAppend(c, record, info.packageXML.identifier);
    assert AlreadyPresent(next, info) == AlreadyPresent(st, info);
    ArchiveStepMeaning(next, archiveFilePath, repositoryRootPath, fs, codecs);
  }

  /** An archive directly in the root folder gets no custom URL; one in a sub-folder gets that folder and a separator. */
  lemma CustomURLOfLayout(root: string, sub: string, name: string)
    requires IsPlainDirectory(root) && IsComponent(sub) && IsComponent(name)
    ensures CustomURL(root + [Separator] + name, root) == ""
    ensures CustomURL(root + [Separator] + sub + [Separator] + name, root) == root + [Separator] + sub + [Separator]
  {
    DirNameOfJoin(root, name);
    var dir := root + [Separator] + sub;
    assert IsPlainDirectory(dir) by {
      assert dir[|dir| - 1] == sub[|sub| - 1];
    }
    DirNameOfJoin(dir, name);
  }

  /** An appended record carries the custom URL, as the pruning later reads it. */
  lemma AppendedRecordURL(st: RepoState, archiveFilePath: string, repositoryRootPath: string, fs: FileSystem, codecs: Codecs)
    requires Valid(st)
    requires ArchiveStep(st, archiveFilePath, repositoryRootPath, fs, codecs).1
    requires var d := ReadPackage(archiveFilePath, fs, codecs).value.packageXML.dependencies;
      d.None? || d.value.name != TagUrl
    ensures var children := ArchiveStep(st, archiveFilePath, repositoryRootPath, fs, codecs).0.remotes.children;
      && |children| == |st.remotes.children| + 1
      && GetURL(RemotePackageDescriptor(children[|children| - 1])) == CustomURL(archiveFilePath, repositoryRootPath)
  {
    LocationReadBack(ReadPackage(archiveFilePath, fs, codecs).value, CustomURL(archiveFilePath, repositoryRootPath), fs, codecs);
  }

  // ------------------------------------------------------------ the run

  /** `generateFolderRepository`, start to finish. */
  function GenerateFolderRepositorySpec(xmlName: string, repositoryName: string, repositoryRootPath: string,
                                        recursive: bool, fs: FileSystem, codecs: Codecs, randomBytes: seq<bv8>)
    : (r: Result<Outcome, TaskError>)
    requires |randomBytes| == 16
    ensures r == Failure(RootNotDirectory) <==> !fs.isDir(repositoryRootPath)
    ensures r.Success? ==> Valid(r.value.state)
  {
    if !fs.isDir(repositoryRootPath) then Failure(RootNotDirectory)
    else match LoadRepository(fs.repositoryXml(xmlName), repositoryName, repositoryRootPath, randomBytes)
      case Failure(e) => Failure(RepositoryFailed(e))
      case Success(loaded) =>
        var pruned := Prune(loaded, Views(loaded.remotes.children), fs);
        match Scan(repositoryRootPath, fs.listing(repositoryRootPath), recursive)
        case Failure(e) => Failure(ScanFailed(e))
        case Success(archives) =>
          var reconciled := Reconcile(pruned.0, archives, repositoryRootPath, fs, codecs);
          var needsSave := pruned.1 || reconciled.1;
          if needsSave && !fs.saveSucceeds(xmlName) then Failure(RepositoryFailed(SaveFailed))
          else Success(Outcome(reconciled.0, needsSave))
  }

  /**
   * The index is written exactly when a record was pruned or added; with
   * distinct identities, that is exactly when the set of records changed
   * size in either phase.
   */
  lemma SavedIffChanged(xmlName: string, repositoryName: string, repositoryRootPath: string,
                        recursive: bool, fs: FileSystem, codecs: Codecs, randomBytes: seq<bv8>)
    requires |randomBytes| == 16
    requires GenerateFolderRepositorySpec(xmlName, repositoryName, repositoryRootPath, recursive, fs, codecs, randomBytes).Success?
    requires UniqueIdents(LoadRepository(fs.repositoryXml(xmlName), repositoryName, repositoryRootPath, randomBytes).value.remotes.children)
    ensures var loaded := LoadRepository(fs.repositoryXml(xmlName), repositoryName, repositoryRootPath, randomBytes).value;
      var pruned := Prune(loaded, Views(loaded.remotes.children), fs);
      var out := GenerateFolderRepositorySpec(xmlName, repositoryName, repositoryRootPath, recursive, fs, codecs, randomBytes).value;
      out.saved <==>
        || |pruned.0.remotes.children| < |loaded.remotes.children|
        || |out.state.remotes.children| > |pruned.0.remotes.children|
  {
    var loaded := LoadRepository(fs.repositoryXml(xmlName), repositoryName, repositoryRootPath, randomBytes).value;
    var pruned := Prune(loaded, Views(loaded.remotes.children), fs);
    PruneExactlyMissing(loaded, fs);
    var archives := Scan(repositoryRootPath, fs.listing(repositoryRootPath), recursive).value;
    ReconcileAppends(pruned.0, archives, repositoryRootPath, fs, codecs);
  }

  /** A run that succeeds keeps `count == |records|` when the loaded index had it. */
  lemma RunKeepsConsistent(xmlName: string, repositoryName: string, repositoryRootPath: string,
                           recursive: bool, fs: FileSystem, codecs: Codecs, randomBytes: seq<bv8>)
    requires |randomBytes| == 16
    requires GenerateFolderRepositorySpec(xmlName, repositoryName, repositoryRootPath, recursive, fs, codecs, randomBytes).Success?
    requires Consistent(LoadRepository(fs.repositoryXml(xmlName), repositoryName, repositoryRootPath, randomBytes).value)
    ensures Consistent(GenerateFolderRepositorySpec(xmlName, repositoryName, repositoryRootPath, recursive, fs, codecs, randomBytes).value.state)
  {
    var loaded := LoadRepository(fs.repositoryXml(xmlName), repositoryName, repositoryRootPath, randomBytes).value;
    var pruned := Prune(loaded, Views(loaded.remotes.children), fs);
    var archives := Scan(repositoryRootPath, fs.listing(repositoryRootPath), recursive).value;
    PruneKeepsConsistent(loaded, Views(loaded.remotes.children), fs);
    ReconcileAppends(pruned.0, archives, repositoryRootPath, fs, codecs);
  }

  /** `cleanObsoletePackages`: one pass over a snapshot of the records. */
  method CleanObsoletePackages(remoteRepositoryXML: RemoteRepositoryXML, fs: FileSystem) returns (hasCleanedPackages: bool)
    requires remoteRepositoryXML.IsValid()
    modifies remoteRepositoryXML
    ensures remoteRepositoryXML.IsValid()
    ensures (remoteRepositoryXML.State(), hasCleanedPackages)
      == Prune(old(remoteRepositoryXML.State()), Views(old(remoteRepositoryXML.remotes.children)), fs)
    ensures remoteRepositoryXML.repositoryFileName == old(remoteRepositoryXML.repositoryFileName)
  {
    ghost var st0 := remoteRepositoryXML.State();
    hasCleanedPackages := false;
    var allRemotePackages := remoteRepositoryXML.GetRemotePackageList();
    for i := 0 to |allRemotePackages|
      invariant remoteRepositoryXML.IsValid()
      invariant (remoteRepositoryXML.State(), hasCleanedPackages) == Prune(st0, allRemotePackages[..i], fs)
      invariant remoteRepositoryXML.repositoryFileName == old(remoteRepositoryXML.repositoryFileName)
    {
      assert allRemotePackages[..i + 1][..i] == allRemotePackages[..i];
      var remotePackage := allRemotePackages[i];
      var filename := GetFile(remotePackage);
      var url := GetURL(remotePackage);
      if EmptyString(url) {
        url := remoteRepositoryXML.GetRepositoryRootPath();
      }
      var fullPackagePath := url + [Separator] + filename;
      if !fs.fileExists(fullPackagePath) {
        remoteRepositoryXML.RemoveRemotePackage(GetIdentity(remotePackage));
        hasCleanedPackages := true;
      }
    }
    assert allRemotePackages[..|allRemotePackages|] == allRemotePackages;
  }

  /**
   * The body of the archive loop: open the package, skip it when its
   * identity is first recorded with the same byte size, set the custom URL
   * for an archive outside the root folder, and add its record.  A package
   * that cannot be opened or described is skipped.
   */
  method AddArchive(remoteRepository: RemoteRepositoryXML, archiveFilePath: string, repositoryRootPath: string,
                    fs: FileSystem, codecs: Codecs) returns (added: bool)
    requires remoteRepository.IsValid()
    modifies remoteRepository
    ensures remoteRepository.IsValid()
    ensures remoteRepository.repositoryFileName == old(remoteRepository.repositoryFileName)
    ensures (remoteRepository.State(), added)
      == ArchiveStep(old(remoteRepository.State()), archiveFilePath, repositoryRootPath, fs, codecs)
  {
    ArchiveStepMeaning(remoteRepository.State(), archiveFilePath, repositoryRootPath, fs, codecs);
    var opening := Package.Open(archiveFilePath, fs, codecs);
    if opening.Failure? {
      // every error of the constructor is an Exception: logged and skipped
      return false;
    }
    var package := opening.value;
    if remoteRepository.ContainsRemotePackage(package.GetIdentifier()) {
      var remotePackage := remoteRepository.GetRemotePackageDescriptor(package.GetIdentifier()).value;
      if SameSize(GetByteSize(remotePackage), package.GetByteSize()) {
        return false;
      }
    }
    var directoryName := DirName(archiveFilePath);
    if |directoryName| != |repositoryRootPath| {
      package.SetCustomURL(directoryName + [Separator]);
    }
    assert package.Location() == CustomURL(archiveFilePath, repositoryRootPath);
    var err := remoteRepository.AddRemotePackage(package, fs, codecs);
    added := err.None?;
  }

  /** `generateFolderRepository`: check the root, open, prune, scan, add, and save when needed. */
  method GenerateFolderRepository(xmlName: string, repositoryName: string, repositoryRootPath: string,
                                  recursive: bool, fs: FileSystem, codecs: Codecs, randomBytes: seq<bv8>)
    returns (r: Result<Outcome, TaskError>)
    requires |randomBytes| == 16
    ensures r == GenerateFolderRepositorySpec(xmlName, repositoryName, repositoryRootPath, recursive, fs, codecs, randomBytes)
  {
    if !fs.isDir(repositoryRootPath) {
      return Failure(RootNotDirectory);
    }
    var openResult := RemoteRepositoryXML.Open(xmlName, repositoryName, repositoryRootPath, fs, randomBytes);
    if openResult.Failure? {
      return Failure(RepositoryFailed(openResult.error));
    }
    var remoteRepository := openResult.value;
    var needsSave := CleanObsoletePackages(remoteRepository, fs);
    var available := GetAvailableArchives(repositoryRootPath, fs.listing(repositoryRootPath), recursive);
    if available.Failure? {
      return Failure(ScanFailed(available.error));
    }
    var availableArchives := available.value;
    ghost var pruned := remoteRepository.State();
    ghost var cleaned := needsSave;
    for i := 0 to |availableArchives|
      invariant remoteRepository.IsValid()
      invariant remoteRepository.repositoryFileName == xmlName
      invariant remoteRepository.State() == Reconcile(pruned, availableArchives[..i], repositoryRootPath, fs, codecs).0
      invariant needsSave == (cleaned || Reconcile(pruned, availableArchives[..i], repositoryRootPath, fs, codecs).1)
    {
      ReconcileSnoc(pruned, availableArchives, i + 1, repositoryRootPath, fs, codecs);
      var added := AddArchive(remoteRepository, availableArchives[i], repositoryRootPath, fs, codecs);
      needsSave := needsSave || added;
    }
    assert availableArchives[..|availableArchives|] == availableArchives;
    if needsSave {
      var saved := remoteRepository.SaveXML(fs);
      if saved.Failure? {
        return Failure(RepositoryFailed(saved.error));
      }
    }
    r := Success(Outcome(remoteRepository.State(), needsSave));
  }
}
