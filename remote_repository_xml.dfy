/**
 * RemoteRepositoryXML: the repository index.  The document's root holds a
 * `uuid`, a `title` and a `downpath` leaf and a `remotes` container whose
 * children are the package records; the container's `count` attribute is
 * mirrored in the field `remoteCount`.  The model keeps the values of the
 * three leaves and the `remotes` element itself.
 */
module RepositoryXml {
  import opened Wrappers
  import opened Php
  import opened Xml
  import opened Environment
  import opened RepositoryHelper
  import opened DescriptorView
  import opened PackageBuilder

  const OpenModManagerRepository: string := "Open_Mod_Manager_Repository"
  const RemotesCount: string := "count"
  const TagUuid: string := "uuid"
  const TagTitle: string := "title"
  const TagDownpath: string := "downpath"
  const TagRemotes: string := "remotes"

  datatype RepoError =
    | LoadFailed        // Exception: DOMDocument::load returned false
    | NotARepository    // no Open_Mod_Manager_Repository element: as written, item(0) gives null and storing it
                        // in the typed DOMElement property is a TypeError, so the null check after it never fires
    | CountNotNumeric   // TypeError: the count attribute does not fit the int property
    | SaveFailed        // Exception: DOMDocument::save returned false

  /** The index as the object holds it. */
  datatype RepoState = RepoState(uuid: string, title: string, downpath: string, remotes: Node, remoteCount: int)

  /** The `remotes` element carries a `count` attribute that reads as `remoteCount`. */
  predicate Valid(st: RepoState) {
    && st.remotes.name == TagRemotes
    && RemotesCount in st.remotes.attrs
    && ParseInt(st.remotes.attrs[RemotesCount]) == Some(st.remoteCount)
  }

  /** Two states agree on everything but the `remotes` element and the count. */
  predicate SameGlobals(a: RepoState, b: RepoState) {
    a.uuid == b.uuid && a.title == b.title && a.downpath == b.downpath
  }

  /** The count is the number of package records. */
  predicate Consistent(st: RepoState) {
    st.remoteCount == |st.remotes.children|
  }

  /** A fresh root element for a repository file that does not exist yet. */
  function FreshRoot(): Node {
    Node(OpenModManagerRepository, map[], "", [])
  }

  /**
   * `initializeRepositoryXML`: a fresh root when there is no file, else the
   * first `Open_Mod_Manager_Repository` element of the loaded document.
   */
  function InitializeRepositoryXML(stored: XmlFile): (r: Result<Node, RepoError>)
    ensures stored.NoFile? ==> r == Success(FreshRoot())
    ensures stored.Unparsable? ==> r == Failure(LoadFailed)
    ensures stored.Parsed? ==>
      (r.Success? <==> |ElementsByTag([stored.document], OpenModManagerRepository)| > 0)
    ensures stored.Parsed? && r.Failure? ==> r.error == NotARepository
    ensures r.Success? ==> r.value.name == OpenModManagerRepository
    ensures stored.Parsed? && stored.document.name == OpenModManagerRepository ==> r == Success(stored.document)
  {
    match stored
    case NoFile => Success(FreshRoot())
    case Unparsable => Failure(LoadFailed)
    case Parsed(document) =>
      var found := ElementsByTag([document], OpenModManagerRepository);
      if |found| == 0 then Failure(NotARepository)
      else
        // the nodeName test repeats what the search guarantees
        var root := found[0];
        if root.name != OpenModManagerRepository then Failure(NotARepository) else Success(root)
  }

  /** The `remotes` element created for a new index: no records and a count of "0". */
  function FreshRemotes(): (n: Node)
    ensures n.name == TagRemotes && n.children == [] && RemotesCount in n.attrs && ParseInt(n.attrs[RemotesCount]) == Some(0)
  {
    Node(TagRemotes, map[RemotesCount := "0"], "", [])
  }

  /**
   * `updateGlobalXMLData` over the root's descendants: keep the first
   * `uuid` or generate one from the 16 random bytes, set `title` and
   * `downpath` to the caller's values as given, and take the first
   * `remotes` element with its `count` or create an empty one.
   */
  function UpdateGlobalXMLData(root: Node, repositoryTitle: string, repositoryRootPath: string, randomBytes: seq<bv8>)
    : (r: Result<RepoState, RepoError>)
    requires |randomBytes| == 16
    ensures r.Success? ==> r.value.title == repositoryTitle && r.value.downpath == repositoryRootPath
    ensures r.Success? ==> Valid(r.value)
    ensures var uuids := ElementsByTag(root.children, TagUuid);
      r.Success? ==> r.value.uuid == if |uuids| > 0 then uuids[0].text else GenerateGuidV4(randomBytes)
    ensures var found := ElementsByTag(root.children, TagRemotes);
      && (|found| == 0 ==> r.Success? && r.value.remotes == FreshRemotes() && r.value.remoteCount == 0)
      && (|found| > 0 ==> (r.Success? <==> ParseInt(GetAttribute(found[0], RemotesCount)).Some?))
      && (|found| > 0 && r.Success? ==> r.value.remotes == found[0])
  {
    var uuids := ElementsByTag(root.children, TagUuid);
    var uuid := if |uuids| > 0 then uuids[0].text else GenerateGuidV4(randomBytes);
    var found := ElementsByTag(root.children, TagRemotes);
    if |found| == 0 then
      Success(RepoState(uuid, repositoryTitle, repositoryRootPath, FreshRemotes(), 0))
    else
      match ParseInt(GetAttribute(found[0], RemotesCount))
      case None => Failure(CountNotNumeric)
      case Some(count) => Success(RepoState(uuid, repositoryTitle, repositoryRootPath, found[0], count))
  }

  /** The constructor: initialise the document, then update its global data. */
  function LoadRepository(stored: XmlFile, repositoryTitle: string, repositoryRootPath: string, randomBytes: seq<bv8>)
    : (r: Result<RepoState, RepoError>)
    requires |randomBytes| == 16
    ensures r.Success? ==> Valid(r.value)
  {
    match InitializeRepositoryXML(stored)
    case Failure(e) => Failure(e)
    case Success(root) => UpdateGlobalXMLData(root, repositoryTitle, repositoryRootPath, randomBytes)
  }

  /** A repository file that does not exist yet gives an empty, consistent index with a generated uuid. */
  lemma NewRepository(repositoryTitle: string, repositoryRootPath: string, randomBytes: seq<bv8>)
    requires |randomBytes| == 16
    ensures var r := LoadRepository(NoFile, repositoryTitle, repositoryRootPath, randomBytes);
      && r.Success?
      && r.value == RepoState(GenerateGuidV4(randomBytes), repositoryTitle, repositoryRootPath, FreshRemotes(), 0)
      && Consistent(r.value)
  {
  }

  /** An existing uuid survives re-opening, whatever random bytes are supplied. */
  lemma UuidKept(root: Node, repositoryTitle: string, repositoryRootPath: string, randomBytes: seq<bv8>)
    requires |randomBytes| == 16
    requires |ElementsByTag(root.children, TagUuid)| > 0
    requires UpdateGlobalXMLData(root, repositoryTitle, repositoryRootPath, randomBytes).Success?
    ensures UpdateGlobalXMLData(root, repositoryTitle, repositoryRootPath, randomBytes).value.uuid
      == ElementsByTag(root.children, TagUuid)[0].text
  {
  }

  // ------------------------------------------------------------ transitions

  /** `adjustRemoteCount`: move the count by delta and write it back to the attribute. */
  function Adjusted(st: RepoState, delta: int): (r: RepoState)
    requires Valid(st)
    ensures Valid(r) && r.remoteCount == st.remoteCount + delta
    ensures r.remotes.children == st.remotes.children && r.remotes.name == st.remotes.name
    ensures SameGlobals(r, st)
  {
    IntDecimalRoundTrip(st.remoteCount + delta);
    var count := st.remoteCount + delta;
    st.(remoteCount := count, remotes := st.remotes.(attrs := st.remotes.attrs[RemotesCount := IntToDecimal(count)]))
  }

  function WithChildren(st: RepoState, children: seq<Node>): (r: RepoState)
    requires Valid(st)
    ensures Valid(r) && r.remotes.children == children && SameGlobals(r, st)
  {
    st.(remotes := st.remotes.(children := children))
  }

  /** `addRemotePackage`: append the record and raise the count by one. */
  function Appended(st: RepoState, record: Node): (r: RepoState)
    requires Valid(st)
    ensures Valid(r)
    ensures r.remotes.children == st.remotes.children + [record]
    ensures r.remoteCount == st.remoteCount + 1
    ensures SameGlobals(r, st)
  {
    Adjusted(WithChildren(st, st.remotes.children + [record]), 1)
  }

  /** The identity a record carries: its `ident` attribute, "" when it has none. */
  function IdentOf(record: Node): string {
    GetAttribute(record, AttributeIdent)
  }

  /** The position of the first record with that identity. */
  function FirstIndexOf(children: seq<Node>, ident: string): (r: Option<nat>)
    ensures r.Some? ==> r.value < |children| && IdentOf(children[r.value]) == ident
    ensures r.Some? ==> forall j :: 0 <= j < r.value ==> IdentOf(children[j]) != ident
    ensures r.None? <==> forall j :: 0 <= j < |children| ==> IdentOf(children[j]) != ident
  {
    if children == [] then None
    else if IdentOf(children[0]) == ident then Some(0)
    else match FirstIndexOf(children[1..], ident)
      case None => None
      case Some(i) => Some(i + 1)
  }

  /** `removeRemotePackage`: drop the first record with that identity and lower the count; no match, no change. */
  function Removed(st: RepoState, ident: string): (r: RepoState)
    requires Valid(st)
    ensures Valid(r) && SameGlobals(r, st)
  {
    match FirstIndexOf(st.remotes.children, ident)
    case None => st
    case Some(i) =>
      Adjusted(WithChildren(st, st.remotes.children[..i] + st.remotes.children[i + 1..]), -1)
  }

  /**
   * `cleanAllRemotePackages`: with records present, remove them all and
   * bring the count to zero; with none, leave everything, the count included.
   */
  function Cleaned(st: RepoState): (r: RepoState)
    requires Valid(st)
    ensures Valid(r) && SameGlobals(r, st)
    ensures r.remotes.children == []
  {
    if |st.remotes.children| == 0 then st
    else Adjusted(WithChildren(st, []), -st.remoteCount)
  }

  /** Removal deletes exactly the first matching record, keeps the others in order, and lowers the count once. */
  lemma RemovedFirstMatch(st: RepoState, ident: string)
    requires Valid(st)
    ensures var i := FirstIndexOf(st.remotes.children, ident);
      && (i.None? ==> Removed(st, ident) == st)
      && (i.Some? ==>
        && Removed(st, ident).remotes.children == st.remotes.children[..i.value] + st.remotes.children[i.value + 1..]
        && Removed(st, ident).remoteCount == st.remoteCount - 1)
  {
  }

  /** A removal that matched leaves one record fewer, and later records with the same identity stay. */
  lemma {:induction false} RemovedKeepsLaterDuplicates(st: RepoState, ident: string, k: nat)
    requires Valid(st)
    requires k < |st.remotes.children| && IdentOf(st.remotes.children[k]) == ident
    requires FirstIndexOf(st.remotes.children, ident) != Some(k)
    ensures |Removed(st, ident).remotes.children| == |st.remotes.children| - 1
    ensures st.remotes.children[k] in Removed(st, ident).remotes.children
  {
    var i := FirstIndexOf(st.remotes.children, ident).value;
    assert i < k;
    var c := st.remotes.children;
    assert (c[..i] + c[i + 1..])[k - 1] == c[k];
  }

  /** Add, remove and clean all keep `count == |records|` when it held before. */
  lemma TransitionsKeepConsistent(st: RepoState, record: Node, ident: string)
    requires Valid(st) && Consistent(st)
    ensures Consistent(Appended(st, record))
    ensures Consistent(Removed(st, ident))
    ensures Consistent(Cleaned(st))
  {
    match FirstIndexOf(st.remotes.children, ident)
    case None =>
    case Some(i) =>
      assert |st.remotes.children[..i] + st.remotes.children[i + 1..]| == |st.remotes.children| - 1;
  }

  /** Cleaning an index whose records are gone but whose count is not keeps the stale count. */
  lemma CleanKeepsStaleCount(st: RepoState)
    requires Valid(st) && st.remotes.children == [] && st.remoteCount != 0
    ensures Cleaned(st) == st && !Consistent(Cleaned(st))
  {
  }

  /** With records present, cleaning resets the count to zero whatever it was. */
  lemma CleanResetsCount(st: RepoState)
    requires Valid(st) && st.remotes.children != []
    ensures Cleaned(st).remoteCount == 0 && Consistent(Cleaned(st))
    ensures Cleaned(st).remotes.attrs[RemotesCount] == "0"
  {
  }

  // ------------------------------------------------------------ the object

  class RemoteRepositoryXML {
    var repositoryFileName: string
    var uuid: string
    var title: string
    var downpath: string
    var remotes: Node
    var remoteCount: int

    function State(): RepoState
      reads this
    {
      RepoState(uuid, title, downpath, remotes, remoteCount)
    }

    predicate IsValid()
      reads this
    {
      Valid(State())
    }

    constructor Init(repositoryFileName: string, st: RepoState)
      ensures this.repositoryFileName == repositoryFileName && State() == st
    {
      this.repositoryFileName := repositoryFileName;
      uuid := st.uuid;
      title := st.title;
      downpath := st.downpath;
      remotes := st.remotes;
      remoteCount := st.remoteCount;
    }

    /** `new RemoteRepositoryXML(...)`: the index loaded from (or created for) the file. */
    static method Open(repositoryFileName: string, repositoryTitle: string, repositoryRootPath: string,
                       fs: FileSystem, randomBytes: seq<bv8>)
      returns (r: Result<RemoteRepositoryXML, RepoError>)
      requires |randomBytes| == 16
      ensures var loaded := LoadRepository(fs.repositoryXml(repositoryFileName), repositoryTitle, repositoryRootPath, randomBytes);
        && (r.Success? <==> loaded.Success?)
        && (r.Success? ==> fresh(r.value) && r.value.State() == loaded.value && r.value.IsValid())
        && (r.Success? ==> r.value.repositoryFileName == repositoryFileName)
        && (r.Failure? ==> r.error == loaded.error)
    {
      var loaded := LoadRepository(fs.repositoryXml(repositoryFileName), repositoryTitle, repositoryRootPath, randomBytes);
      if loaded.Failure? {
        r := Failure(loaded.error);
      } else {
        var repository := new RemoteRepositoryXML.Init(repositoryFileName, loaded.value);
        r := Success(repository);
      }
    }

    /** Under the index invariant, the number of package records. */
    function GetRemotePackageCount(): (n: int)
      reads this
      ensures Consistent(State()) ==> n == |remotes.children|
    {
      remoteCount
    }

    method AdjustRemoteCount(delta: int)
      requires IsValid()
      modifies this
      ensures State() == Adjusted(old(State()), delta)
      ensures repositoryFileName == old(repositoryFileName)
    {
      remoteCount := remoteCount + delta;
      remotes := remotes.(attrs := remotes.attrs[RemotesCount := IntToDecimal(remoteCount)]);
    }

    /**
     * Appends the package's record and raises the count.  When the record
     * cannot be built, the error propagates and the index is unchanged.
     */
    method AddRemotePackage(package: Package, fs: FileSystem, codecs: Codecs) returns (err: Option<PackageError>)
      requires IsValid()
      modifies this
      ensures var d := package.GetRemoteDescriptor(fs, codecs);
        && (d.Failure? ==> err == Some(d.error) && State() == old(State()))
        && (d.Success? ==> err.None? && State() == Appended(old(State()), d.value))
      ensures IsValid() && repositoryFileName == old(repositoryFileName)
    {
      var d := package.GetRemoteDescriptor(fs, codecs);
      if d.Failure? {
        return Some(d.error);
      }
      remotes := remotes.(children := remotes.children + [d.value]);
      AdjustRemoteCount(1);
      err := None;
    }

    /** Walks the records in order and removes the first one carrying the identity. */
    method RemoveRemotePackage(packageIdent: string)
      requires IsValid()
      modifies this
      ensures State() == Removed(old(State()), packageIdent)
      ensures repositoryFileName == old(repositoryFileName)
    {
      var i := 0;
      while i < |remotes.children|
        invariant 0 <= i <= |remotes.children|
        invariant forall j :: 0 <= j < i ==> IdentOf(remotes.children[j]) != packageIdent
        invariant State() == old(State())
      {
        if IdentOf(remotes.children[i]) == packageIdent {
          assert FirstIndexOf(remotes.children, packageIdent) == Some(i);
          remotes := remotes.(children := remotes.children[..i] + remotes.children[i + 1..]);
          AdjustRemoteCount(-1);
          return;
        }
        i := i + 1;
      }
    }

    /** Removes the first record as many times as there were records, then zeroes the count. */
    method CleanAllRemotePackages()
      requires IsValid()
      modifies this
      ensures State() == Cleaned(old(State()))
      ensures repositoryFileName == old(repositoryFileName)
    {
      var count := |remotes.children|;
      if count > 0 {
        for i := 0 to count
          invariant remotes.children == old(remotes.children)[i..]
          invariant remotes == old(remotes).(children := old(remotes.children)[i..])
          invariant uuid == old(uuid) && title == old(title) && downpath == old(downpath)
          invariant remoteCount == old(remoteCount) && repositoryFileName == old(repositoryFileName)
        {
          remotes := remotes.(children := remotes.children[1..]);
        }
        AdjustRemoteCount(-remoteCount);
      }
    }

    /** `saveXML`: fails exactly when writing the file fails. */
    method SaveXML(fs: FileSystem) returns (r: Result<(), RepoError>)
      ensures r.Failure? <==> !fs.saveSucceeds(repositoryFileName)
      ensures r.Failure? ==> r.error == SaveFailed
    {
      if !fs.saveSucceeds(repositoryFileName) {
        r := Failure(SaveFailed);
      } else {
        r := Success(());
      }
    }

    /** Whether some record carries the identity (used by the newer task). */
    predicate ContainsRemotePackage(ident: string)
      reads this
    {
      FirstIndexOf(remotes.children, ident).Some?
    }

    /** The view over the first record carrying the identity (used by the newer task). */
    function GetRemotePackageDescriptor(ident: string): (r: Option<RemotePackageDescriptor>)
      reads this
      ensures r.Some? <==> ContainsRemotePackage(ident)
      ensures r.Some? ==> GetIdentity(r.value) == ident
    {
      match FirstIndexOf(remotes.children, ident)
      case None => None
      case Some(i) => Some(RemotePackageDescriptor(remotes.children[i]))
    }

    /** Views over all records, in document order (used by the newer task). */
    function GetRemotePackageList(): (r: seq<RemotePackageDescriptor>)
      reads this
      ensures |r| == |remotes.children|
      ensures forall i :: 0 <= i < |r| ==> r[i].remoteXMLElement == remotes.children[i]
    {
      Views(remotes.children)
    }

    /** The stored root path (used by the newer task). */
    function GetRepositoryRootPath(): string
      reads this
    {
      downpath
    }
  }

  function Views(children: seq<Node>): (r: seq<RemotePackageDescriptor>)
    ensures |r| == |children|
    ensures forall i :: 0 <= i < |r| ==> r[i].remoteXMLElement == children[i]
  {
    seq(|children|, i requires 0 <= i < |children| => RemotePackageDescriptor(children[i]))
  }
}
