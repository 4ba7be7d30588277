/**
 * RemotePackageDescriptor: a read-only view over one `remote` element of
 * the repository index.  The view is validated once, at construction.
 */
module DescriptorView {
  import opened Wrappers
  import opened Xml

  const TagRemote: string := "remote"
  const TagPicture: string := "picture"
  const TagDescription: string := "description"
  const TagUrl: string := "url"
  const TagCategory: string := "category"

  const AttributeIdent: string := "ident"
  const AttributeFile: string := "file"
  const AttributeBytes: string := "bytes"
  const AttributeMd5: string := "md5sum"

  /** The constructor's InvalidArgumentException. */
  datatype DescriptorError = NotARemoteElement

  datatype RemotePackageDescriptor = RemotePackageDescriptor(remoteXMLElement: Node)

  /** A descriptor only ever wraps an element named `remote`. */
  predicate IsDescriptor(d: RemotePackageDescriptor) {
    d.remoteXMLElement.name == TagRemote
  }

  /** The constructor: accepts exactly the elements named `remote` and keeps the element itself. */
  function NewRemotePackageDescriptor(remoteXMLElement: Node): (r: Result<RemotePackageDescriptor, DescriptorError>)
    ensures r.Success? <==> remoteXMLElement.name == TagRemote
    ensures r.Success? ==> IsDescriptor(r.value) && r.value.remoteXMLElement == remoteXMLElement
    ensures r.Failure? ==> r.error == NotARemoteElement
  {
    if remoteXMLElement.name != TagRemote then Failure(NotARemoteElement)
    else Success(RemotePackageDescriptor(remoteXMLElement))
  }

  /** The `ident` attribute, "" when the element has none. */
  function GetIdentity(d: RemotePackageDescriptor): (r: string)
    ensures AttributeIdent in d.remoteXMLElement.attrs ==> r == d.remoteXMLElement.attrs[AttributeIdent]
    ensures AttributeIdent !in d.remoteXMLElement.attrs ==> r == ""
  {
    GetAttribute(d.remoteXMLElement, AttributeIdent)
  }

  /** The `bytes` attribute as the string it is stored as. */
  function GetByteSize(d: RemotePackageDescriptor): (r: string)
    ensures AttributeBytes in d.remoteXMLElement.attrs ==> r == d.remoteXMLElement.attrs[AttributeBytes]
    ensures AttributeBytes !in d.remoteXMLElement.attrs ==> r == ""
  {
    GetAttribute(d.remoteXMLElement, AttributeBytes)
  }

  /** The `md5sum` attribute. */
  function GetMD5Hash(d: RemotePackageDescriptor): (r: string)
    ensures AttributeMd5 in d.remoteXMLElement.attrs ==> r == d.remoteXMLElement.attrs[AttributeMd5]
    ensures AttributeMd5 !in d.remoteXMLElement.attrs ==> r == ""
  {
    GetAttribute(d.remoteXMLElement, AttributeMd5)
  }

  /** The archive's file name, read from the `file` attribute (used by the newer task). */
  function GetFile(d: RemotePackageDescriptor): (r: string)
    ensures AttributeFile in d.remoteXMLElement.attrs ==> r == d.remoteXMLElement.attrs[AttributeFile]
    ensures AttributeFile !in d.remoteXMLElement.attrs ==> r == ""
  {
    GetAttribute(d.remoteXMLElement, AttributeFile)
  }

  /** children[i] is the first child named `url`. */
  predicate FirstUrlAt(children: seq<Node>, i: nat) {
    && i < |children|
    && children[i].name == TagUrl
    && forall j :: 0 <= j < i ==> children[j].name != TagUrl
  }

  /** The text of the first `url` child, "" when the record has none (used by the newer task). */
  function FirstUrl(children: seq<Node>): (r: string)
    ensures (forall i :: 0 <= i < |children| ==> children[i].name != TagUrl) ==> r == ""
    ensures forall i: nat :: FirstUrlAt(children, i) ==> r == children[i].text
  {
    if children == [] then ""
    else if children[0].name == TagUrl then children[0].text
    else FirstUrl(children[1..])
  }

  function GetURL(d: RemotePackageDescriptor): (r: string)
    ensures d.remoteXMLElement.children == [] ==> r == ""
  {
    FirstUrl(d.remoteXMLElement.children)
  }

  /** The element the descriptor was constructed from. */
  function GetRemoteXMLElement(d: RemotePackageDescriptor): (r: Node)
    ensures IsDescriptor(d) ==> r.name == TagRemote
    ensures forall e :: NewRemotePackageDescriptor(e) == Success(d) ==> r == e
  {
    d.remoteXMLElement
  }
}
