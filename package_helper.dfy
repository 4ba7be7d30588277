/**
 * PackageHelper: line-ending normalisation, the description and logo
 * data-URI encodings, and the error logic of `calculatePackageHash`.
 * Texts are PHP byte strings.  base64, zlib, MIME sniffing and hashing are
 * the uninterpreted functions of `Environment`.
 */
module PackageHelper {
  import opened Wrappers
  import opened Environment
  import opened Php

  const LF: bv8 := 0x0A
  const CR: bv8 := 0x0D

  datatype HelperError =
    | DescriptionMissing    // InvalidArgumentException
    | CompressionFailed     // Exception
    | LogoNotEncodable      // Exception
    | PackageFileMissing    // InvalidArgumentException
    | HashAlgorithmMissing  // InvalidArgumentException
    | HashFailed            // Exception
    | UnknownAlgorithm      // ValueError from hash_file: an Error, not an Exception

  predicate IsInvalidArgument(e: HelperError) {
    e.DescriptionMissing? || e.PackageFileMissing? || e.HashAlgorithmMissing?
  }

  // ------------------------------------------------------------ line endings

  /** A line feed that `/(?<=[^\r]|^)\n/` matches: at the start or after anything but CR. */
  predicate IsBareLF(s: Bytes, i: nat)
    requires i < |s|
  {
    s[i] == LF && (i == 0 || s[i - 1] != CR)
  }

  predicate NoBareLF(s: Bytes) {
    forall i :: 0 <= i < |s| ==> !IsBareLF(s, i)
  }

  /** What byte i of the subject becomes in the replacement. */
  function LinePiece(s: Bytes, i: nat): seq<bv8>
    requires i < |s|
  {
    if IsBareLF(s, i) then [CR, LF] else [s[i]]
  }

  /** `convertLineEndings`: `preg_replace("/(?<=[^\r]|^)\n/", "\r\n", $s)`. */
  function ConvertLineEndings(s: Bytes): (r: Bytes)
    ensures s == [] <==> r == []
    ensures s != [] ==> r[|r| - 1] == s[|s| - 1]
  {
    if s == [] then [] else ConvertLineEndings(s[..|s| - 1]) + LinePiece(s, |s| - 1)
  }

  function BareLFCount(s: Bytes): nat {
    if s == [] then 0 else BareLFCount(s[..|s| - 1]) + (if IsBareLF(s, |s| - 1) then 1 else 0)
  }

  /** The bytes other than CR, in order. */
  function WithoutCR(s: Bytes): Bytes {
    if s == [] then [] else WithoutCR(s[..|s| - 1]) + (if s[|s| - 1] == CR then [] else [s[|s| - 1]])
  }

  lemma {:induction false} WithoutCRConcat(a: Bytes, b: Bytes)
    ensures WithoutCR(a + b) == WithoutCR(a) + WithoutCR(b)
    decreases |b|
  {
    if b == [] {
      assert a + b == a;
    } else {
      WithoutCRConcat(a, b[..|b| - 1]);
      assert (a + b)[..|a + b| - 1] == a + b[..|b| - 1];
    }
  }

  /** After conversion every line feed is preceded by a carriage return. */
  lemma {:induction false} ConvertedHasNoBareLF(s: Bytes)
    ensures NoBareLF(ConvertLineEndings(s))
    decreases |s|
  {
    if s != [] {
      var p := s[..|s| - 1];
      var c := ConvertLineEndings(p);
      var r := ConvertLineEndings(s);
      ConvertedHasNoBareLF(p);
      assert r == c + LinePiece(s, |s| - 1);
      forall i | 0 <= i < |r| ensures !IsBareLF(r, i) {
        if i < |c| {
          assert r[i] == c[i] && (i > 0 ==> r[i - 1] == c[i - 1]);
          assert !IsBareLF(c, i);
        } else if IsBareLF(s, |s| - 1) {
          assert i == |c| ==> r[i] == CR;
          assert i == |c| + 1 ==> r[i - 1] == CR;
        } else {
          assert i == |c| && r[i] == s[|s| - 1];
          if r[i] == LF {
            assert |s| > 1 && s[|s| - 2] == CR;
            assert r[i - 1] == c[|c| - 1] == p[|p| - 1] == CR;
          }
        }
      }
    }
  }

  /** Text with no bare line feed is left as it is. */
  lemma {:induction false} NoBareLFIsFixpoint(s: Bytes)
    requires NoBareLF(s)
    ensures ConvertLineEndings(s) == s
    decreases |s|
  {
    if s != [] {
      var p := s[..|s| - 1];
      forall i | 0 <= i < |p| ensures !IsBareLF(p, i) {
        assert !IsBareLF(s, i);
      }
      NoBareLFIsFixpoint(p);
      assert s == p + [s[|s| - 1]];
    }
  }

  /** Converting twice is converting once: existing CR LF pairs are kept. */
  lemma ConvertIdempotent(s: Bytes)
    ensures ConvertLineEndings(ConvertLineEndings(s)) == ConvertLineEndings(s)
  {
    ConvertedHasNoBareLF(s);
    NoBareLFIsFixpoint(ConvertLineEndings(s));
  }

  /** One byte is added per bare line feed. */
  lemma {:induction false} ConvertLength(s: Bytes)
    ensures |ConvertLineEndings(s)| == |s| + BareLFCount(s)
    decreases |s|
  {
    if s != [] {
      ConvertLength(s[..|s| - 1]);
    }
  }

  lemma BareLFPiece(s: Bytes, i: nat)
    requires i < |s| && IsBareLF(s, i)
    ensures WithoutCR(LinePiece(s, i)) == [LF]
  {
    var piece := LinePiece(s, i);
    assert piece == [CR, LF];
    assert piece[..1] == [CR];
    assert WithoutCR([CR]) == [];
  }

  /** The byte that is added is a CR: removing CRs gives the same text. */
  lemma {:induction false} ConvertOnlyInsertsCR(s: Bytes)
    ensures WithoutCR(ConvertLineEndings(s)) == WithoutCR(s)
    decreases |s|
  {
    if s != [] {
      var p := s[..|s| - 1];
      var last := s[|s| - 1];
      ConvertOnlyInsertsCR(p);
      WithoutCRConcat(ConvertLineEndings(p), LinePiece(s, |s| - 1));
      if IsBareLF(s, |s| - 1) {
        BareLFPiece(s, |s| - 1);
      } else {
        assert LinePiece(s, |s| - 1) == [last];
      }
      assert WithoutCR([last]) == (if last == CR then [] else [last]);
    }
  }

  // ------------------------------------------------------------ utf8_encode

  /** `utf8_encode` of one ISO-8859-1 byte. */
  function Utf8Of(b: bv8): seq<bv8> {
    if b < 0x80 then [b] else [0xC0 | (b >> 6), 0x80 | (b & 0x3F)]
  }

  function Utf8Encode(s: Bytes): Bytes {
    if s == [] then [] else Utf8Of(s[0]) + Utf8Encode(s[1..])
  }

  function HighByteCount(s: Bytes): nat {
    if s == [] then 0 else (if s[0] >= 0x80 then 1 else 0) + HighByteCount(s[1..])
  }

  /** UTF-8 back to ISO-8859-1 for the two-byte forms `utf8_encode` produces. */
  function Latin1FromUtf8(u: Bytes): Bytes
    decreases |u|
  {
    if u == [] then []
    else if u[0] < 0x80 || |u| == 1 then [u[0]] + Latin1FromUtf8(u[1..])
    else [((u[0] & 0x03) << 6) | (u[1] & 0x3F)] + Latin1FromUtf8(u[2..])
  }

  lemma {:induction false} Utf8Length(s: Bytes)
    ensures |Utf8Encode(s)| == |s| + HighByteCount(s)
  {
    if s != [] {
      Utf8Length(s[1..]);
    }
  }

  lemma TwoByteForm(b: bv8)
    requires b >= 0x80
    ensures 0xC0 | (b >> 6) >= 0x80
    ensures (((0xC0 | (b >> 6)) & 0x03) << 6) | ((0x80 | (b & 0x3F)) & 0x3F) == b
  {
  }

  /** `utf8_encode` loses nothing: decoding its output gives the input back. */
  lemma {:induction false} Utf8RoundTrip(s: Bytes)
    ensures Latin1FromUtf8(Utf8Encode(s)) == s
  {
    if s != [] {
      Utf8RoundTrip(s[1..]);
      var e := Utf8Encode(s);
      if s[0] < 0x80 {
        assert e[1..] == Utf8Encode(s[1..]);
      } else {
        TwoByteForm(s[0]);
        assert e[2..] == Utf8Encode(s[1..]);
      }
    }
  }

  lemma {:induction false} HighByteCountConcat(a: Bytes, b: Bytes)
    ensures HighByteCount(a + b) == HighByteCount(a) + HighByteCount(b)
  {
    if a != [] {
      HighByteCountConcat(a[1..], b);
      assert (a + b)[1..] == a[1..] + b;
    } else {
      assert a + b == b;
    }
  }

  /** Line-ending conversion adds only CR bytes, which are ASCII. */
  lemma {:induction false} ConvertKeepsHighBytes(s: Bytes)
    ensures HighByteCount(ConvertLineEndings(s)) == HighByteCount(s)
    decreases |s|
  {
    if s != [] {
      var p := s[..|s| - 1];
      ConvertKeepsHighBytes(p);
      HighByteCountConcat(ConvertLineEndings(p), LinePiece(s, |s| - 1));
      assert s == p + [s[|s| - 1]];
      HighByteCountConcat(p, [s[|s| - 1]]);
    }
  }

  // ------------------------------------------------------------ description

  datatype EncodedDescription = EncodedDescription(bytes: nat, encodedText: string)

  const OctetStreamPrefix: string := "data:application/octet-stream;base64,"

  /** PHP's `empty()` on a byte string: "" and "0". */
  predicate EmptyBytes(s: Bytes) {
    s == [] || s == [0x30]
  }

  /**
   * `encodePackageDescription`: rejects an empty text, converts line
   * endings, UTF-8 encodes, counts the bytes plus one for the terminating
   * NUL, compresses and frames the base64 of the result.
   */
  function EncodePackageDescription(raw: Bytes, codecs: Codecs): (r: Result<EncodedDescription, HelperError>)
    ensures r.Failure? && r.error == DescriptionMissing <==> EmptyBytes(raw)
    ensures r.Failure? ==> r.error == DescriptionMissing || r.error == CompressionFailed
    ensures r.Success? ==> |r.value.encodedText| >= |OctetStreamPrefix| && r.value.encodedText[..|OctetStreamPrefix|] == OctetStreamPrefix
    ensures r.Success? ==> r.value.bytes >= |raw| + 1
  {
    if EmptyBytes(raw) then Failure(DescriptionMissing)
    else
      var text := Utf8Encode(ConvertLineEndings(raw));
      var byteSize := |text| + 1;
      match codecs.gzcompress(text)
      case None => Failure(CompressionFailed)
      case Some(compressed) =>
        ConvertLength(raw);
        Utf8Length(ConvertLineEndings(raw));
        Success(EncodedDescription(byteSize, OctetStreamPrefix + codecs.base64(compressed)))
  }

  /**
   * The `bytes` attribute is the raw length, plus one per bare line feed,
   * plus one per byte at or above 0x80, plus the terminator.
   */
  lemma DescriptionByteCount(raw: Bytes, codecs: Codecs)
    requires EncodePackageDescription(raw, codecs).Success?
    ensures EncodePackageDescription(raw, codecs).value.bytes == |raw| + BareLFCount(raw) + HighByteCount(raw) + 1
  {
    ConvertLength(raw);
    Utf8Length(ConvertLineEndings(raw));
    ConvertKeepsHighBytes(raw);
  }

  // ------------------------------------------------------------ logo

  /**
   * `encodePackageLogo`: "data:<mime>;base64,<payload>", unless the base64
   * text or the sniffed MIME type is falsy ("" or "0" under `!= false`).
   */
  function EncodePackageLogo(imageRawData: Bytes, codecs: Codecs): (r: Result<string, HelperError>)
    ensures r.Failure? <==>
      EmptyString(codecs.base64(imageRawData)) || codecs.mimeType(imageRawData).None? || EmptyString(codecs.mimeType(imageRawData).value)
    ensures r.Failure? ==> r.error == LogoNotEncodable
    ensures r.Success? ==>
      var payload := codecs.base64(imageRawData);
      && |r.value| == 5 + |codecs.mimeType(imageRawData).value| + 8 + |payload|
      && r.value[..5] == "data:"
      && r.value[5..5 + |codecs.mimeType(imageRawData).value|] == codecs.mimeType(imageRawData).value
      && r.value[|r.value| - |payload| - 8..|r.value| - |payload|] == ";base64,"
      && r.value[|r.value| - |payload|..] == payload
  {
    var contentType := codecs.mimeType(imageRawData);
    var encodedImageData := codecs.base64(imageRawData);
    if !EmptyString(encodedImageData) && contentType.Some? && !EmptyString(contentType.value) then
      Success("data:" + contentType.value + ";base64," + encodedImageData)
    else
      Failure(LogoNotEncodable)
  }

  // ------------------------------------------------------------ hash

  /**
   * `calculatePackageHash`: the file must exist; unless the test is skipped
   * the algorithm must be one `hash_algos()` lists, compared exactly as
   * `in_array` does; a falsy digest is an error.  `hash_file` lower-cases the
   * name before looking the algorithm up, so "MD5" hashes with md5; a name
   * whose lower-cased form is not listed throws a ValueError in PHP 8.
   */
  function CalculatePackageHash(filePath: string, algorithm: string, skipTest: bool, fs: FileSystem, codecs: Codecs)
    : (r: Result<string, HelperError>)
    ensures r == Failure(PackageFileMissing) <==> !fs.fileExists(filePath)
    ensures r == Failure(HashAlgorithmMissing) <==> fs.fileExists(filePath) && !skipTest && algorithm !in codecs.hashAlgorithms
    ensures r == Failure(UnknownAlgorithm) <==>
      && fs.fileExists(filePath)
      && (skipTest || algorithm in codecs.hashAlgorithms)
      && LowerAsciiString(algorithm) !in codecs.hashAlgorithms
    ensures r.Failure? ==> IsInvalidArgument(r.error) || r.error == HashFailed || r.error == UnknownAlgorithm
    ensures r.Success? ==> LowerAsciiString(algorithm) in codecs.hashAlgorithms
    ensures r.Success? ==> fs.hashFile(LowerAsciiString(algorithm), filePath) == Some(r.value) && !EmptyString(r.value)
    ensures
      (&& fs.fileExists(filePath)
       && (skipTest || algorithm in codecs.hashAlgorithms)
       && LowerAsciiString(algorithm) in codecs.hashAlgorithms
       && fs.hashFile(LowerAsciiString(algorithm), filePath).Some?
       && !EmptyString(fs.hashFile(LowerAsciiString(algorithm), filePath).value))
      ==> r.Success?
  {
    var name := LowerAsciiString(algorithm);
    if !fs.fileExists(filePath) then Failure(PackageFileMissing)
    else if !skipTest && algorithm !in codecs.hashAlgorithms then Failure(HashAlgorithmMissing)
    else if name !in codecs.hashAlgorithms then Failure(UnknownAlgorithm)
    else match fs.hashFile(name, filePath)
      case Some(checksum) => if !EmptyString(checksum) then Success(checksum) else Failure(HashFailed)
      case None => Failure(HashFailed)
  }

  /** With the test skipped (the default), an algorithm `hash_algos()` does not list ends in `hash_file`'s ValueError. */
  lemma UnknownAlgorithmReachesHashFile(filePath: string, fs: FileSystem, codecs: Codecs)
    requires fs.fileExists(filePath) && "nosuch" !in codecs.hashAlgorithms
    ensures CalculatePackageHash(filePath, "nosuch", true, fs, codecs) == Failure(UnknownAlgorithm)
    ensures CalculatePackageHash(filePath, "nosuch", false, fs, codecs) == Failure(HashAlgorithmMissing)
  {
  }

  /**
   * The algorithm lookup of `hash_file` ignores case: with the test skipped,
   * "MD5" hashes the file with md5, while the `in_array` test, when it runs,
   * compares exactly and rejects the upper-case name.
   */
  lemma UpperCaseAlgorithmHashed(filePath: string, digest: string, fs: FileSystem, codecs: Codecs)
    requires fs.fileExists(filePath) && fs.hashFile("md5", filePath) == Some(digest) && !EmptyString(digest)
    requires "MD5" !in codecs.hashAlgorithms
    ensures CalculatePackageHash(filePath, "MD5", true, fs, codecs) == Success(digest)
    ensures CalculatePackageHash(filePath, "MD5", false, fs, codecs) == Failure(HashAlgorithmMissing)
  {
    assert LowerAsciiString("MD5") == "md5";
  }
}
