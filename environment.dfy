/**
 * What the library reads from outside itself, given to the model as
 * values: the filesystem (existence, directory test, size, directory
 * listings, the repository XML file, zip archives, file hashes, whether a
 * save succeeds) and the foreign codecs (manifest parsing, Imagick
 * thumbnails, MIME sniffing, base64, zlib).  None of them is interpreted.
 */
module Environment {
  import opened Wrappers
  import opened Xml

  type Bytes = seq<bv8>

  /** What `file_exists` and `DOMDocument::load` make of the repository XML path. */
  datatype XmlFile = NoFile | Unparsable | Parsed(document: Node)

  /** `ZipArchive::open`: true with the archive's entries, or a non-zero error code. */
  datatype ZipOpen = Opened(entries: map<string, Bytes>) | OpenError(code: int)

  /**
   * A directory as `scandir` lists it, followed recursively: an entry is a
   * plain file or a sub-directory with its own listing.  `Unreadable` is a
   * directory `scandir` fails on.
   */
  datatype DirTree = Unreadable | Dir(entries: seq<DirEntry>)
  datatype DirEntry = File(name: string) | SubDir(name: string, tree: DirTree)

  /** What `PackageXML` yields for a `package.omp` manifest. */
  datatype PackageXML = PackageXML(
    identifier: string,        // getIdentifier: the <install> text
    dependencies: Option<Node>, // getDependencies, when a <dependencies> element exists
    description: Bytes,        // getDescription
    logoImage: string)         // getLogoImage: the <picture> text

  datatype FileSystem = FileSystem(
    fileExists: string -> bool,               // file_exists
    isDir: string -> bool,                    // is_dir
    size: string -> nat,                      // filesize
    listing: string -> DirTree,               // scandir, recursively
    repositoryXml: string -> XmlFile,         // file_exists + DOMDocument::load
    openZip: string -> ZipOpen,               // ZipArchive::open
    hashFile: (string, string) -> Option<string>, // hash_file($algorithm, $path); None is false
    saveSucceeds: string -> bool)             // DOMDocument::save did not return false

  datatype CodecTable = Codecs(
    parseManifest: Bytes -> Option<PackageXML>, // new PackageXML; None when it throws
    thumbnail: Bytes -> Option<Bytes>,          // createThumbnail; None when Imagick throws
    mimeType: Bytes -> Option<string>,          // finfo::buffer; None is false
    base64: Bytes -> string,                    // base64_encode
    gzcompress: Bytes -> Option<Bytes>,         // gzcompress(.., 9); None is false
    hashAlgorithms: set<string>)                // hash_algos()

  /** The hash extension is always built in from PHP 7.4 on, so `hash_algos()` always lists "md5". */
  type Codecs = c: CodecTable | "md5" in c.hashAlgorithms
    witness Codecs(_ => None, _ => None, _ => None, _ => "", _ => None, {"md5"})
}
