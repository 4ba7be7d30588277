/**
 * Package: one mod archive on disk.  Construction checks that the archive
 * exists, records its base name and size, and reads the `package.omp`
 * manifest and the logo it names from the archive.  The remote descriptor
 * is built from those fields on demand.
 */
module PackageBuilder {
  import opened Wrappers
  import opened Php
  import opened Xml
  import opened Environment
  import opened PackageHelper
  import opened DescriptorView

  const PackageDescriptorFile: string := "package.omp"
  const ChecksumAttribute: string := "checksum"
  const ChecksumPlaceholder: string := "toBeRemoved"
  const Md5Algorithm: string := "md5"

  datatype PackageError =
    | ArchiveMissing            // Exception: the archive path does not exist
    | ArchiveUnreadable(code: int) // Exception: ZipArchive::open returned an error code
    | ManifestMissing           // Exception: package.omp not in the archive
    | ManifestInvalid           // Exception from PackageXML
    | LogoMissing               // Exception: the named logo is not in the archive
    | ZipObjectInvalid          // ValueError (an Error, not an Exception) from using an unopened ZipArchive
    | ThumbnailFailed           // ImagickException
    | HelperFailed(cause: HelperError)

  /** Whether a `catch (Exception $e)` catches the error. */
  predicate IsException(e: PackageError) {
    !e.ZipObjectInvalid? && e != HelperFailed(UnknownAlgorithm)
  }

  /** What `retrieveInformationFromArchive` leaves in the object. */
  datatype ArchiveContents = ArchiveContents(packageXML: PackageXML, logoImageData: Option<Bytes>)

  /** The fields set by the constructor. */
  datatype PackageInfo = PackageInfo(
    packageXML: PackageXML,
    packageArchiveFile: string,
    packageArchiveFilePath: string,
    logoImageData: Option<Bytes>,
    packageByteSize: nat)

  /**
   * `retrieveInformationFromArchive` with the two checks doing what they
   * are evidently meant to: an archive that does not open and a logo the
   * manifest names but the archive lacks are both reported.
   */
  function RetrieveInformationFromArchive(path: string, fs: FileSystem, codecs: Codecs)
    : (r: Result<ArchiveContents, PackageError>)
    ensures fs.openZip(path).OpenError? ==> r == Failure(ArchiveUnreadable(fs.openZip(path).code))
    ensures fs.openZip(path).Opened? && PackageDescriptorFile !in fs.openZip(path).entries ==> r == Failure(ManifestMissing)
    ensures r.Success? ==>
      && fs.openZip(path).Opened?
      && PackageDescriptorFile in fs.openZip(path).entries
      && codecs.parseManifest(fs.openZip(path).entries[PackageDescriptorFile]) == Some(r.value.packageXML)
    ensures r.Success? ==> (r.value.logoImageData.Some? <==> !EmptyString(r.value.packageXML.logoImage))
    ensures r.Success? && r.value.logoImageData.Some? ==>
      && r.value.packageXML.logoImage in fs.openZip(path).entries
      && r.value.logoImageData.value == fs.openZip(path).entries[r.value.packageXML.logoImage]
    ensures r.Failure? ==> IsException(r.error)
  {
    match fs.openZip(path)
    case OpenError(code) => Failure(ArchiveUnreadable(code))
    case Opened(entries) =>
      if PackageDescriptorFile !in entries then Failure(ManifestMissing)
      else match codecs.parseManifest(entries[PackageDescriptorFile])
        case None => Failure(ManifestInvalid)
        case Some(manifest) =>
          var logoImageName := manifest.logoImage;
          if EmptyString(logoImageName) then Success(ArchiveContents(manifest, None))
          else if logoImageName !in entries then Failure(LogoMissing)
          else Success(ArchiveContents(manifest, Some(entries[logoImageName])))
  }

  /**
   * `retrieveInformationFromArchive` as written.  `$result != true` is a
   * loose comparison, and every non-zero error code is truthy, so an
   * archive that does not open is not reported; the next `getFromName` on
   * the unopened archive raises a ValueError.  The logo read stores
   * `getFromName`'s false into a `string` property, which coerces it to "",
   * so the `=== false` test never holds and a missing logo becomes empty
   * logo data.
   */
  function RetrieveInformationAsWritten(path: string, fs: FileSystem, codecs: Codecs)
    : (r: Result<ArchiveContents, PackageError>)
    ensures fs.openZip(path).OpenError? && fs.openZip(path).code != 0 ==> r == Failure(ZipObjectInvalid)
    ensures r != Failure(LogoMissing)
  {
    match fs.openZip(path)
    case OpenError(code) =>
      // `$code != true` holds only for a falsy code
      if code == 0 then Failure(ArchiveUnreadable(code)) else Failure(ZipObjectInvalid)
    case Opened(entries) =>
      if PackageDescriptorFile !in entries then Failure(ManifestMissing)
      else match codecs.parseManifest(entries[PackageDescriptorFile])
        case None => Failure(ManifestInvalid)
        case Some(manifest) =>
          var logoImageName := manifest.logoImage;
          if EmptyString(logoImageName) then Success(ArchiveContents(manifest, None))
          else if logoImageName !in entries then Success(ArchiveContents(manifest, Some([])))
          else Success(ArchiveContents(manifest, Some(entries[logoImageName])))
  }

  /** The archive that makes both checks of `retrieveInformationFromArchive` misfire. */
  function NotAZip(): FileSystem {
    FileSystem(
      _ => true, _ => false, _ => 0, _ => Unreadable, _ => NoFile,
      _ => OpenError(19), (_, _) => None, _ => true)
  }

  /** A manifest naming a logo "logo.png" that the archive does not contain. */
  function LogoLessArchive(): FileSystem {
    FileSystem(
      _ => true, _ => false, _ => 0, _ => Unreadable, _ => NoFile,
      _ => Opened(map[PackageDescriptorFile := []]), (_, _) => None, _ => true)
  }

  function ManifestNamingLogo(): Codecs {
    Codecs(
      _ => Some(PackageXML("mod", None, [], "logo.png")),
      _ => None, _ => None, _ => "", _ => None, {"md5"})
  }

  /**
   * An archive that is not a zip (ER_NOZIP, code 19) escapes as an Error
   * the tasks do not catch, where an Exception they log and skip was meant.
   */
  lemma OpenFailureEscapes()
    ensures RetrieveInformationAsWritten("a.zip", NotAZip(), ManifestNamingLogo()) == Failure(ZipObjectInvalid)
    ensures !IsException(RetrieveInformationAsWritten("a.zip", NotAZip(), ManifestNamingLogo()).error)
    ensures RetrieveInformationFromArchive("a.zip", NotAZip(), ManifestNamingLogo()) == Failure(ArchiveUnreadable(19))
  {
  }

  /** A logo named but absent is accepted as written and reported once corrected. */
  lemma MissingLogoAccepted()
    ensures RetrieveInformationAsWritten("a.zip", LogoLessArchive(), ManifestNamingLogo()).Success?
    ensures RetrieveInformationAsWritten("a.zip", LogoLessArchive(), ManifestNamingLogo()).value.logoImageData == Some([])
    ensures RetrieveInformationFromArchive("a.zip", LogoLessArchive(), ManifestNamingLogo()) == Failure(LogoMissing)
  {
    var entries := LogoLessArchive().openZip("a.zip").entries;
    assert "logo.png" !in entries;
  }

  /** The constructor: existence check, base name and size, then the archive contents. */
  function ReadPackage(path: string, fs: FileSystem, codecs: Codecs): (r: Result<PackageInfo, PackageError>)
    ensures r == Failure(ArchiveMissing) <==> !fs.fileExists(path)
    ensures fs.fileExists(path) ==>
      (r.Success? <==> RetrieveInformationFromArchive(path, fs, codecs).Success?)
    ensures r.Success? ==>
      && r.value.packageArchiveFilePath == path
      && r.value.packageArchiveFile == BaseName(path)
      && r.value.packageByteSize == fs.size(path)
      && r.value.packageXML == RetrieveInformationFromArchive(path, fs, codecs).value.packageXML
      && r.value.logoImageData == RetrieveInformationFromArchive(path, fs, codecs).value.logoImageData
    ensures r.Failure? ==> IsException(r.error)
  {
    if !fs.fileExists(path) then Failure(ArchiveMissing)
    else match RetrieveInformationFromArchive(path, fs, codecs)
      case Failure(e) => Failure(e)
      case Success(contents) =>
        Success(PackageInfo(contents.packageXML, BaseName(path), path, contents.logoImageData, fs.size(path)))
  }

  /** The `description` element: the data URI as text, the byte count as attribute. */
  function DescriptionElement(encoded: EncodedDescription): (n: Node)
    ensures n.name == TagDescription && n.children == []
    ensures n.attrs.Keys == {AttributeBytes} && ParseInt(n.attrs[AttributeBytes]) == Some(encoded.bytes)
  {
    IntDecimalRoundTrip(encoded.bytes);
    Node(TagDescription, map[AttributeBytes := IntToDecimal(encoded.bytes)], encoded.encodedText, [])
  }

  function RemoteAttributes(info: PackageInfo, md5: string): (m: map<string, string>)
    ensures m.Keys == {AttributeIdent, AttributeFile, AttributeBytes, ChecksumAttribute, AttributeMd5}
    ensures m[AttributeIdent] == info.packageXML.identifier
    ensures m[AttributeFile] == info.packageArchiveFile
    ensures ParseInt(m[AttributeBytes]) == Some(info.packageByteSize as int)
    ensures m[ChecksumAttribute] == ChecksumPlaceholder
    ensures m[AttributeMd5] == md5
  {
    IntDecimalRoundTrip(info.packageByteSize);
    map[
      AttributeIdent := info.packageXML.identifier,
      AttributeFile := info.packageArchiveFile,
      AttributeBytes := IntToDecimal(info.packageByteSize),
      ChecksumAttribute := ChecksumPlaceholder,
      AttributeMd5 := md5]
  }

  function OptionalChild(n: Option<Node>): (r: seq<Node>)
    ensures |r| == if n.Some? then 1 else 0
    ensures n.Some? ==> r[0] == n.value
  {
    if n.Some? then [n.value] else []
  }

  /** The `picture` element, when there is logo data and it can be thumbnailed and encoded. */
  function PictureElement(logo: Option<Bytes>, codecs: Codecs): (r: Result<Option<Node>, PackageError>)
    ensures r.Success? ==> (r.value.Some? <==> logo.Some?)
    ensures logo.Some? ==>
      (r.Success? <==> codecs.thumbnail(logo.value).Some? && EncodePackageLogo(codecs.thumbnail(logo.value).value, codecs).Success?)
    ensures r.Success? && logo.Some? ==>
      r.value.value == Leaf(TagPicture, EncodePackageLogo(codecs.thumbnail(logo.value).value, codecs).value)
    ensures r.Failure? ==> IsException(r.error)
  {
    match logo
    case None => Success(None)
    case Some(data) =>
      match codecs.thumbnail(data)
      case None => Failure(ThumbnailFailed)
      case Some(thumbnail) =>
        match EncodePackageLogo(thumbnail, codecs)
        case Failure(e) => Failure(HelperFailed(e))
        case Success(uri) => Success(Some(Leaf(TagPicture, uri)))
  }

  function DescriptionChild(raw: Bytes, codecs: Codecs): (r: Result<Option<Node>, PackageError>)
    ensures r.Success? ==> (r.value.Some? <==> !EmptyBytes(raw))
    ensures r.Failure? ==> IsException(r.error)
  {
    if EmptyBytes(raw) then Success(None)
    else match EncodePackageDescription(raw, codecs)
      case Failure(e) => Failure(HelperFailed(e))
      case Success(encoded) => Success(Some(DescriptionElement(encoded)))
  }

  /**
   * `generateRemotePackageDescriptor`: a `remote` element carrying ident,
   * file, bytes, the checksum placeholder and md5sum, followed by the
   * manifest's dependencies, the logo picture and the description, each only
   * when present.  The MD5 digest is `calculatePackageHash($path, "md5")`.
   */
  function GenerateRemotePackageDescriptor(info: PackageInfo, fs: FileSystem, codecs: Codecs)
    : (r: Result<Node, PackageError>)
    ensures r.Success? <==>
      && CalculatePackageHash(info.packageArchiveFilePath, Md5Algorithm, true, fs, codecs).Success?
      && PictureElement(info.logoImageData, codecs).Success?
      && DescriptionChild(info.packageXML.description, codecs).Success?
    ensures r.Success? ==>
      var e := r.value;
      && e.name == TagRemote
      && e.attrs.Keys == {AttributeIdent, AttributeFile, AttributeBytes, ChecksumAttribute, AttributeMd5}
      && e.attrs[AttributeIdent] == info.packageXML.identifier
      && e.attrs[AttributeFile] == info.packageArchiveFile
      && ParseInt(e.attrs[AttributeBytes]) == Some(info.packageByteSize as int)
      && e.attrs[ChecksumAttribute] == ChecksumPlaceholder
      && Some(e.attrs[AttributeMd5]) == fs.hashFile(Md5Algorithm, info.packageArchiveFilePath)
      && |e.children| == (if info.packageXML.dependencies.Some? then 1 else 0)
                       + (if info.logoImageData.Some? then 1 else 0)
                       + (if EmptyBytes(info.packageXML.description) then 0 else 1)
      && (info.packageXML.dependencies.Some? ==> e.children[0] == info.packageXML.dependencies.value)
    ensures r.Failure? ==> IsException(r.error)
  {
    match CalculatePackageHash(info.packageArchiveFilePath, Md5Algorithm, true, fs, codecs)
    case Failure(e) => Failure(HelperFailed(e))
    case Success(md5) =>
      match PictureElement(info.logoImageData, codecs)
      case Failure(e) => Failure(e)
      case Success(picture) =>
        match DescriptionChild(info.packageXML.description, codecs)
        case Failure(e) => Failure(e)
        case Success(description) =>
          Success(Node(TagRemote, RemoteAttributes(info, md5), "",
            OptionalChild(info.packageXML.dependencies) + OptionalChild(picture) + OptionalChild(description)))
  }

  /**
   * The MD5 hash of a package never reaches `hash_file`'s ValueError, since
   * "md5" is always available; its failures are Exceptions the tasks catch.
   */
  lemma Md5HashFailuresAreExceptions(info: PackageInfo, fs: FileSystem, codecs: Codecs)
    ensures CalculatePackageHash(info.packageArchiveFilePath, Md5Algorithm, true, fs, codecs) != Failure(UnknownAlgorithm)
    ensures GenerateRemotePackageDescriptor(info, fs, codecs).Failure? ==>
      GenerateRemotePackageDescriptor(info, fs, codecs).error != HelperFailed(UnknownAlgorithm)
  {
  }

  /** The picture child is present exactly when logo data was loaded, and holds the logo's data URI. */
  lemma PictureChild(info: PackageInfo, fs: FileSystem, codecs: Codecs)
    requires GenerateRemotePackageDescriptor(info, fs, codecs).Success?
    requires info.logoImageData.Some?
    ensures var e := GenerateRemotePackageDescriptor(info, fs, codecs).value;
      var k := if info.packageXML.dependencies.Some? then 1 else 0;
      && k < |e.children|
      && e.children[k].name == TagPicture
      && codecs.thumbnail(info.logoImageData.value).Some?
      && e.children[k].text == EncodePackageLogo(codecs.thumbnail(info.logoImageData.value).value, codecs).value
  {
  }

  /** The description child is last, present exactly for a non-empty description, and carries its byte count. */
  lemma DescriptionChildLast(info: PackageInfo, fs: FileSystem, codecs: Codecs)
    requires GenerateRemotePackageDescriptor(info, fs, codecs).Success?
    requires !EmptyBytes(info.packageXML.description)
    ensures var e := GenerateRemotePackageDescriptor(info, fs, codecs).value;
      var d := e.children[|e.children| - 1];
      && d.name == TagDescription
      && d.text == EncodePackageDescription(info.packageXML.description, codecs).value.encodedText
      && ParseInt(d.attrs[AttributeBytes]) == Some(EncodePackageDescription(info.packageXML.description, codecs).value.bytes as int)
  {
  }

  /** What the descriptor view reads back from a generated record is what the package put in. */
  lemma GeneratedDescriptorView(info: PackageInfo, fs: FileSystem, codecs: Codecs)
    requires GenerateRemotePackageDescriptor(info, fs, codecs).Success?
    ensures var d := NewRemotePackageDescriptor(GenerateRemotePackageDescriptor(info, fs, codecs).value);
      && d.Success?
      && GetIdentity(d.value) == info.packageXML.identifier
      && GetFile(d.value) == info.packageArchiveFile
      && ParseInt(GetByteSize(d.value)) == Some(info.packageByteSize as int)
      && Some(GetMD5Hash(d.value)) == fs.hashFile(Md5Algorithm, info.packageArchiveFilePath)
  {
  }

  /**
   * The record a package contributes to the repository: the generated
   * descriptor, plus a `url` child holding the location when one was set.
   */
  function RemoteDescriptor(info: PackageInfo, location: string, fs: FileSystem, codecs: Codecs)
    : (r: Result<Node, PackageError>)
    ensures r.Success? <==> GenerateRemotePackageDescriptor(info, fs, codecs).Success?
    ensures r.Success? ==>
      var g := GenerateRemotePackageDescriptor(info, fs, codecs).value;
      && r.value.name == g.name && r.value.attrs == g.attrs
      && |r.value.children| == |g.children| + (if location == "" then 0 else 1)
      && r.value.children[..|g.children|] == g.children
    ensures r.Success? && location != "" ==> r.value.children[|r.value.children| - 1] == Leaf(TagUrl, location)
    ensures r.Failure? ==> IsException(r.error)
  {
    match GenerateRemotePackageDescriptor(info, fs, codecs)
    case Failure(e) => Failure(e)
    case Success(remote) =>
      if location == "" then Success(remote)
      else Success(remote.(children := remote.children + [Leaf(TagUrl, location)]))
  }

  class Package {
    var packageXML: PackageXML
    var packageArchiveFile: string
    var packageArchiveFilePath: string
    var logoImageData: Option<Bytes>
    var packageByteSize: nat
    var customURL: string
    var downloadPath: string

    function Info(): PackageInfo
      reads this
    {
      PackageInfo(packageXML, packageArchiveFile, packageArchiveFilePath, logoImageData, packageByteSize)
    }

    constructor Init(info: PackageInfo)
      ensures Info() == info && customURL == "" && downloadPath == ""
    {
      packageXML := info.packageXML;
      packageArchiveFile := info.packageArchiveFile;
      packageArchiveFilePath := info.packageArchiveFilePath;
      logoImageData := info.logoImageData;
      packageByteSize := info.packageByteSize;
      customURL := "";
      downloadPath := "";
    }

    /** `new Package($path)`: a package exactly when `ReadPackage` succeeds. */
    static method Open(path: string, fs: FileSystem, codecs: Codecs) returns (r: Result<Package, PackageError>)
      ensures r.Success? <==> ReadPackage(path, fs, codecs).Success?
      ensures r.Success? ==> fresh(r.value) && r.value.Info() == ReadPackage(path, fs, codecs).value
      ensures r.Success? ==> r.value.customURL == "" && r.value.downloadPath == ""
      ensures r.Failure? ==> r.error == ReadPackage(path, fs, codecs).error
    {
      var read := ReadPackage(path, fs, codecs);
      if read.Failure? {
        r := Failure(read.error);
      } else {
        var p := new Package.Init(read.value);
        r := Success(p);
      }
    }

    /** The manifest's identifier. */
    function GetIdentifier(): string
      reads this
    {
      packageXML.identifier
    }

    function GetByteSize(): nat
      reads this
    {
      packageByteSize
    }

    method SetCustomURL(url: string)
      modifies this
      ensures customURL == url
      ensures Info() == old(Info()) && downloadPath == old(downloadPath)
    {
      customURL := url;
    }

    method SetDownloadPath(path: string)
      modifies this
      ensures downloadPath == path
      ensures Info() == old(Info()) && customURL == old(customURL)
    {
      downloadPath := path;
    }

    /** The location recorded in the `url` child: the custom URL, else the download sub-path. */
    function Location(): string
      reads this
    {
      if customURL != "" then customURL else downloadPath
    }

    /** The record added to the repository, with this package's location. */
    function GetRemoteDescriptor(fs: FileSystem, codecs: Codecs): (r: Result<Node, PackageError>)
      reads this
    {
      RemoteDescriptor(Info(), Location(), fs, codecs)
    }
  }

  /** A generated record with no `url` child before the appended one. */
  predicate NoUrlChild(children: seq<Node>) {
    forall i :: 0 <= i < |children| ==> children[i].name != TagUrl
  }

  /**
   * The location a record carries is what the descriptor view's `getURL`
   * reads back, provided the manifest's dependencies element is not itself
   * named `url`.
   */
  lemma {:induction false} LocationReadBack(info: PackageInfo, location: string, fs: FileSystem, codecs: Codecs)
    requires RemoteDescriptor(info, location, fs, codecs).Success?
    requires info.packageXML.dependencies.None? || info.packageXML.dependencies.value.name != TagUrl
    ensures GetURL(RemotePackageDescriptor(RemoteDescriptor(info, location, fs, codecs).value)) == location
  {
    var g := GenerateRemotePackageDescriptor(info, fs, codecs).value;
    var r := RemoteDescriptor(info, location, fs, codecs).value;
    GeneratedHasNoUrlChild(info, fs, codecs);
    if location != "" {
      assert r.children[..|g.children|] == g.children;
      assert forall j :: 0 <= j < |g.children| ==> r.children[j] == g.children[j];
      assert FirstUrlAt(r.children, |g.children|);
    } else {
      assert r.children == g.children;
    }
  }

  /** A generated record has no `url` child unless the dependencies element is named so. */
  lemma GeneratedHasNoUrlChild(info: PackageInfo, fs: FileSystem, codecs: Codecs)
    requires GenerateRemotePackageDescriptor(info, fs, codecs).Success?
    requires info.packageXML.dependencies.None? || info.packageXML.dependencies.value.name != TagUrl
    ensures NoUrlChild(GenerateRemotePackageDescriptor(info, fs, codecs).value.children)
  {
  }
}
