/**
 * RepositoryHelper: the version-4 UUID layout of `generateGuidV4` (RFC 4122,
 * section 4.4) and the per-segment percent-encoding of `urlEncodePath`
 * (RFC 3986, sections 2.1 and 2.3).
 */
module RepositoryHelper {
  import opened Wrappers

  // ---------------------------------------------------------------- UUID

  predicate IsLowerHex(c: char) {
    '0' <= c <= '9' || 'a' <= c <= 'f'
  }

  function HexDigit(v: nat): (c: char)
    requires v < 16
    ensures IsLowerHex(c)
  {
    if v < 10 then ('0' as int + v) as char else ('a' as int + v - 10) as char
  }

  function HexValue(c: char): (v: nat)
    requires IsLowerHex(c)
    ensures v < 16
  {
    if c <= '9' then c as int - '0' as int else c as int - 'a' as int + 10
  }

  /** `bin2hex`: two lower-case hex digits per byte, high nibble first. */
  function Bin2Hex(data: seq<bv8>): (r: string)
    ensures |r| == 2 * |data|
    ensures forall i :: 0 <= i < |data| ==>
      r[2 * i] == HexDigit(data[i] as int / 16) && r[2 * i + 1] == HexDigit(data[i] as int % 16)
    ensures forall j :: 0 <= j < |r| ==> IsLowerHex(r[j])
  {
    if data == [] then ""
    else [HexDigit(data[0] as int / 16), HexDigit(data[0] as int % 16)] + Bin2Hex(data[1..])
  }

  /** Byte 6 keeps its low nibble and gets version 0100; byte 8 keeps its low six bits and gets variant 10. */
  function StampVersion(data: seq<bv8>): (r: seq<bv8>)
    requires |data| == 16
    ensures |r| == 16
    ensures forall i :: 0 <= i < 16 && i != 6 && i != 8 ==> r[i] == data[i]
    ensures r[6] as int / 16 == 4 && r[6] as int % 16 == data[6] as int % 16
    ensures r[8] as int / 64 == 2 && r[8] as int % 64 == data[8] as int % 64
  {
    var v := (data[6] & 0x0F) | 0x40;
    var w := (data[8] & 0x3F) | 0x80;
    StampBits(data[6], data[8]);
    data[6 := v][8 := w]
  }

  lemma StampBits(b6: bv8, b8: bv8)
    ensures ((b6 & 0x0F) | 0x40) as int / 16 == 4
    ensures ((b6 & 0x0F) | 0x40) as int % 16 == b6 as int % 16
    ensures ((b8 & 0x3F) | 0x80) as int / 64 == 2
    ensures ((b8 & 0x3F) | 0x80) as int % 64 == b8 as int % 64
  {
  }

  /** `vsprintf('%s%s-%s-%s-%s-%s%s%s', str_split($hex, 4))`: groups of 8, 4, 4, 4 and 12. */
  function Format8444(h: string): (g: string)
    requires |h| == 32
  {
    h[0..8] + "-" + h[8..12] + "-" + h[12..16] + "-" + h[16..20] + "-" + h[20..32]
  }

  /** Where each character of the formatted string comes from. */
  lemma FormatLayout(h: string, k: nat)
    requires |h| == 32 && k < 36
    ensures |Format8444(h)| == 36
    ensures Format8444(h)[k] ==
      if k == 8 || k == 13 || k == 18 || k == 23 then '-'
      else if k < 8 then h[k] else if k < 13 then h[k - 1] else if k < 18 then h[k - 2]
      else if k < 23 then h[k - 3] else h[k - 4]
  {
  }

  /**
   * `generateGuidV4` on the platform without `com_create_guid`, with the 16
   * bytes of `random_bytes(16)` passed in: bin2hex of the stamped bytes,
   * split 8-4-4-4-12 by hyphens.
   */
  function GenerateGuidV4(data: seq<bv8>): (r: string)
    requires |data| == 16
    ensures |r| == 36
    ensures r[8] == '-' && r[13] == '-' && r[18] == '-' && r[23] == '-'
    ensures forall k :: 0 <= k < 36 && k != 8 && k != 13 && k != 18 && k != 23 ==> IsLowerHex(r[k])
    ensures r[14] == '4'
    ensures r[19] in {'8', '9', 'a', 'b'}
  {
    var s := StampVersion(data);
    var h := Bin2Hex(s);
    var g := Format8444(h);
    assert forall k :: 0 <= k < 36 ==> (FormatLayout(h, k); k != 8 && k != 13 && k != 18 && k != 23 ==> IsLowerHex(g[k]));
    FormatLayout(h, 8);
    FormatLayout(h, 13);
    FormatLayout(h, 18);
    FormatLayout(h, 23);
    FormatLayout(h, 14);
    FormatLayout(h, 19);
    assert g[14] == HexDigit(s[6] as int / 16);
    assert g[19] == HexDigit(s[8] as int / 16);
    assert 8 <= s[8] as int / 16 < 12;
    g
  }

  /** Where the two hex digits of byte i sit in the formatted UUID. */
  function HexPosition(i: nat): nat
    requires i < 16
  {
    if i < 4 then 2 * i else if i < 6 then 2 * i + 1 else if i < 8 then 2 * i + 2 else if i < 10 then 2 * i + 3 else 2 * i + 4
  }

  /** The byte value a UUID string holds at byte index i. */
  function ByteAt(guid: string, i: nat): nat
    requires |guid| == 36 && i < 16
    requires IsLowerHex(guid[HexPosition(i)]) && IsLowerHex(guid[HexPosition(i) + 1])
  {
    HexValue(guid[HexPosition(i)]) * 16 + HexValue(guid[HexPosition(i) + 1])
  }

  /** The two characters of byte i in the UUID are the hex digits of the stamped byte. */
  lemma GuidDigitsAt(data: seq<bv8>, i: nat)
    requires |data| == 16 && i < 16
    ensures var s := StampVersion(data); var g := GenerateGuidV4(data);
      g[HexPosition(i)] == HexDigit(s[i] as int / 16) && g[HexPosition(i) + 1] == HexDigit(s[i] as int % 16)
  {
    var s := StampVersion(data);
    var h := Bin2Hex(s);
    FormatLayout(h, HexPosition(i));
    FormatLayout(h, HexPosition(i) + 1);
  }

  /**
   * Reading the UUID back gives the input bytes: every input bit appears
   * unchanged except the four version bits of byte 6 (now 0100) and the two
   * variant bits of byte 8 (now 10).
   */
  lemma GuidEncodesBytes(data: seq<bv8>, i: nat)
    requires |data| == 16 && i < 16
    ensures var g := GenerateGuidV4(data);
      IsLowerHex(g[HexPosition(i)]) && IsLowerHex(g[HexPosition(i) + 1])
      && (i != 6 && i != 8 ==> ByteAt(g, i) == data[i] as int)
      && (i == 6 ==> ByteAt(g, i) / 16 == 4 && ByteAt(g, i) % 16 == data[6] as int % 16)
      && (i == 8 ==> ByteAt(g, i) / 64 == 2 && ByteAt(g, i) % 64 == data[8] as int % 64)
  {
    var s := StampVersion(data);
    GuidDigitsAt(data, i);
    var b := s[i] as int;
    assert HexValue(HexDigit(b / 16)) == b / 16;
    assert HexValue(HexDigit(b % 16)) == b % 16;
    assert ByteAt(GenerateGuidV4(data), i) == b;
  }

  // ---------------------------------------------------------------- paths

  /** The unreserved characters of RFC 3986, section 2.3, which `rawurlencode` leaves alone. */
  predicate IsUnreserved(c: char) {
    'A' <= c <= 'Z' || 'a' <= c <= 'z' || '0' <= c <= '9' || c == '-' || c == '_' || c == '.' || c == '~'
  }

  predicate IsUpperHex(c: char) {
    '0' <= c <= '9' || 'A' <= c <= 'F'
  }

  /** PHP strings are bytes: every character is below 256. */
  predicate IsByteString(s: string) {
    forall i :: 0 <= i < |s| ==> s[i] as int < 256
  }

  function UpperHexDigit(v: nat): (c: char)
    requires v < 16
    ensures IsUpperHex(c)
  {
    if v < 10 then ('0' as int + v) as char else ('A' as int + v - 10) as char
  }

  function UpperHexValue(c: char): nat
    requires IsUpperHex(c)
  {
    if c <= '9' then c as int - '0' as int else c as int - 'A' as int + 10
  }

  /** One byte under `rawurlencode`: itself if unreserved, otherwise "%XX" (RFC 3986, section 2.1). */
  function EncodeChar(c: char): (r: string)
    requires c as int < 256
  {
    if IsUnreserved(c) then [c] else ['%', UpperHexDigit(c as int / 16), UpperHexDigit(c as int % 16)]
  }

  /** Characters that can appear in `rawurlencode` output. */
  predicate IsEncodedChar(c: char) {
    IsUnreserved(c) || c == '%'
  }

  function RawUrlEncode(s: string): (r: string)
    requires IsByteString(s)
    ensures forall i :: 0 <= i < |r| ==> IsEncodedChar(r[i])
  {
    if s == [] then "" else EncodeChar(s[0]) + RawUrlEncode(s[1..])
  }

  /** `rawurldecode`: "%XX" with two hex digits becomes that byte, everything else stays. */
  function RawUrlDecode(s: string): string
  {
    if |s| >= 3 && s[0] == '%' && IsUpperHex(s[1]) && IsUpperHex(s[2])
    then [(UpperHexValue(s[1]) * 16 + UpperHexValue(s[2])) as char] + RawUrlDecode(s[3..])
    else if s == [] then ""
    else [s[0]] + RawUrlDecode(s[1..])
  }

  lemma {:induction false} RawUrlRoundTrip(s: string)
    requires IsByteString(s)
    ensures RawUrlDecode(RawUrlEncode(s)) == s
  {
    if s != [] {
      var e := EncodeChar(s[0]);
      var rest := RawUrlEncode(s[1..]);
      assert RawUrlEncode(s) == e + rest;
      RawUrlRoundTrip(s[1..]);
      if IsUnreserved(s[0]) {
        assert (e + rest)[1..] == rest;
      } else {
        assert (e + rest)[3..] == rest;
      }
    }
  }

  /** `explode($sep, $s)`: the pieces between separators; always at least one. */
  function Split(s: string, sep: char): (r: seq<string>)
    ensures |r| >= 1
    ensures forall k, i :: 0 <= k < |r| && 0 <= i < |r[k]| ==> r[k][i] != sep
    ensures IsByteString(s) ==> forall k :: 0 <= k < |r| ==> IsByteString(r[k])
  {
    if s == [] then [""]
    else
      var rest := Split(s[1..], sep);
      if s[0] == sep then [""] + rest else [[s[0]] + rest[0]] + rest[1..]
  }

  /** `implode($sep, $parts)`. */
  function Join(parts: seq<string>, sep: char): string
  {
    if parts == [] then ""
    else if |parts| == 1 then parts[0]
    else parts[0] + [sep] + Join(parts[1..], sep)
  }

  lemma {:induction false} JoinSplit(s: string, sep: char)
    ensures Join(Split(s, sep), sep) == s
  {
    if s != [] {
      JoinSplit(s[1..], sep);
      var rest := Split(s[1..], sep);
      if s[0] != sep {
        if |rest| == 1 {
          assert Split(s, sep) == [[s[0]] + rest[0]];
        } else {
          assert Split(s, sep)[1..] == rest[1..];
        }
      }
    }
  }

  predicate SeparatorFree(part: string, sep: char) {
    forall i :: 0 <= i < |part| ==> part[i] != sep
  }

  lemma {:induction false} SplitFree(part: string, sep: char)
    requires SeparatorFree(part, sep)
    ensures Split(part, sep) == [part]
  {
    if part != [] {
      SplitFree(part[1..], sep);
      assert [part[0]] + part[1..] == part;
    }
  }

  lemma {:induction false} SplitAfterPart(part: string, sep: char, tail: string)
    requires SeparatorFree(part, sep)
    ensures Split(part + [sep] + tail, sep) == [part] + Split(tail, sep)
  {
    if part == [] {
      assert part + [sep] + tail == [sep] + tail;
    } else {
      SplitAfterPart(part[1..], sep, tail);
      assert (part + [sep] + tail)[1..] == part[1..] + [sep] + tail;
      assert [part[0]] + part[1..] == part;
    }
  }

  lemma {:induction false} SplitJoin(parts: seq<string>, sep: char)
    requires |parts| >= 1
    requires forall k :: 0 <= k < |parts| ==> SeparatorFree(parts[k], sep)
    ensures Split(Join(parts, sep), sep) == parts
  {
    if |parts| == 1 {
      SplitFree(parts[0], sep);
    } else {
      SplitJoin(parts[1..], sep);
      SplitAfterPart(parts[0], sep, Join(parts[1..], sep));
    }
  }

  /** `str_replace($from, $to, $s)` for single characters. */
  function ReplaceChar(s: string, from: char, to: char): (r: string)
    ensures |r| == |s|
  {
    if s == [] then "" else [if s[0] == from then to else s[0]] + ReplaceChar(s[1..], from, to)
  }

  function EncodeSegments(parts: seq<string>): (r: seq<string>)
    requires forall k :: 0 <= k < |parts| ==> IsByteString(parts[k])
    ensures |r| == |parts|
    ensures forall k :: 0 <= k < |parts| ==> r[k] == RawUrlEncode(parts[k])
  {
    if parts == [] then [] else [RawUrlEncode(parts[0])] + EncodeSegments(parts[1..])
  }

  function DecodeSegments(parts: seq<string>): (r: seq<string>)
    ensures |r| == |parts|
    ensures forall k :: 0 <= k < |parts| ==> r[k] == RawUrlDecode(parts[k])
  {
    if parts == [] then [] else [RawUrlDecode(parts[0])] + DecodeSegments(parts[1..])
  }

  /** A platform's DIRECTORY_SEPARATOR. */
  predicate IsDirectorySeparator(sep: char) {
    sep == '/' || sep == '\\'
  }

  /**
   * `urlEncodePath` without its line-60 statement: explode on the
   * separator, rawurlencode each segment, implode, then turn separators
   * into '/'.
   */
  function UrlEncodePath(path: string, sep: char): (r: string)
    requires IsByteString(path) && IsDirectorySeparator(sep)
  {
    ReplaceChar(Join(EncodeSegments(Split(path, sep)), sep), sep, '/')
  }

  /** The inverse direction: split on '/' and rawurldecode each segment. */
  function UrlDecodePath(url: string): string
  {
    Join(DecodeSegments(Split(url, '/')), '/')
  }

  lemma {:induction false} ReplaceInJoin(parts: seq<string>, sep: char)
    requires forall k :: 0 <= k < |parts| ==> SeparatorFree(parts[k], sep)
    ensures ReplaceChar(Join(parts, sep), sep, '/') == Join(parts, '/')
  {
    if |parts| > 1 {
      ReplaceInJoin(parts[1..], sep);
      var a, b := parts[0], Join(parts[1..], sep);
      ReplaceSplits(a, [sep] + b, sep);
      ReplaceSplits([sep], b, sep);
      ReplaceNoop(a, sep);
      assert ReplaceChar([sep], sep, '/') == ['/'];
      assert a + [sep] + b == a + ([sep] + b);
    } else if |parts| == 1 {
      ReplaceNoop(parts[0], sep);
    }
  }

  lemma {:induction false} ReplaceSplits(a: string, b: string, sep: char)
    ensures ReplaceChar(a + b, sep, '/') == ReplaceChar(a, sep, '/') + ReplaceChar(b, sep, '/')
  {
    if a != [] {
      ReplaceSplits(a[1..], b, sep);
      assert (a + b)[1..] == a[1..] + b;
    } else {
      assert a + b == b;
    }
  }

  lemma {:induction false} ReplaceNoop(a: string, sep: char)
    requires SeparatorFree(a, sep)
    ensures ReplaceChar(a, sep, '/') == a
  {
    if a != [] {
      ReplaceNoop(a[1..], sep);
      assert [a[0]] + a[1..] == a;
    }
  }

  /**
   * The segments of the encoded path are exactly the encoded segments of
   * the input, in the same number and order, joined by '/'.
   */
  lemma UrlEncodePathSegments(path: string, sep: char)
    requires IsByteString(path) && IsDirectorySeparator(sep)
    ensures Split(UrlEncodePath(path, sep), '/') == EncodeSegments(Split(path, sep))
  {
    var enc := EncodeSegments(Split(path, sep));
    forall k | 0 <= k < |enc| ensures SeparatorFree(enc[k], sep) && SeparatorFree(enc[k], '/') {
    }
    ReplaceInJoin(enc, sep);
    SplitJoin(enc, '/');
  }

  /** Decoding an encoded path gives back the path with its separators written as '/'. */
  lemma UrlPathRoundTrip(path: string, sep: char)
    requires IsByteString(path) && IsDirectorySeparator(sep)
    ensures UrlDecodePath(UrlEncodePath(path, sep)) == ReplaceChar(path, sep, '/')
  {
    UrlEncodePathSegments(path, sep);
    var parts := Split(path, sep);
    var dec := DecodeSegments(EncodeSegments(parts));
    forall k | 0 <= k < |parts| ensures dec[k] == parts[k] {
      RawUrlRoundTrip(parts[k]);
    }
    assert dec == parts;
    JoinSplit(path, sep);
    ReplaceInJoin(parts, sep);
  }

  datatype PhpError = TypeError

  /**
   * `urlEncodePath` as written: line 60 evaluates `"." + DIRECTORY_SEPARATOR`,
   * arithmetic on two non-numeric strings, which PHP 8 rejects with a
   * TypeError before anything is returned.
   */
  function UrlEncodePathAsWritten(path: string, sep: char): (r: Result<string, PhpError>)
    requires IsByteString(path) && IsDirectorySeparator(sep)
    ensures r.Failure?
  {
    var encoded := ReplaceChar(Join(EncodeSegments(Split(path, sep)), sep), sep, '/');
    assert "."[0] == '.';
    if IsNumericString(".") && IsNumericString([sep]) then Success(encoded) else Failure(TypeError)
  }

  /** PHP 8 accepts a string in arithmetic only when it is numeric; "." and the separators are not. */
  predicate IsNumericString(s: string) {
    |s| >= 1 && forall i :: 0 <= i < |s| ==> '0' <= s[i] <= '9'
  }

  lemma EncodeExample()
    ensures RawUrlEncode("a b") == "a%20b"
  {
    assert "a b"[1..] == " b";
    assert " b"[1..] == "b";
    assert "b"[1..] == "";
    assert EncodeChar(' ') == "%20";
  }

  lemma SplitExample()
    ensures Split("d/a b", '/') == ["d", "a b"]
  {
    ExamplePath();
    SplitFree("a b", '/');
    SplitAfterPart("d", '/', "a b");
  }

  lemma ExamplePath()
    ensures "d/a b" == "d" + ['/'] + "a b"
    ensures SeparatorFree("a b", '/') && SeparatorFree("d", '/')
  {
  }

  lemma EncodeSegmentsExample()
    ensures EncodeSegments(["d", "a b"]) == ["d", "a%20b"]
  {
    EncodeExample();
    assert RawUrlEncode("d") == "d";
  }

  lemma JoinExample()
    ensures Join(["d", "a%20b"], '/') == "d/a%20b"
  {
  }

  /** The as-written path encoder never returns, while the corrected one encodes "d/a b". */
  lemma UrlEncodePathDefect()
    ensures UrlEncodePathAsWritten("d/a b", '/').Failure?
    ensures UrlEncodePath("d/a b", '/') == "d/a%20b"
  {
    SplitExample();
    EncodeSegmentsExample();
    JoinExample();
    ReplaceSame("d/a%20b", '/');
  }

  lemma {:induction false} ReplaceSame(a: string, c: char)
    ensures ReplaceChar(a, c, c) == a
  {
    if a != [] {
      ReplaceSame(a[1..], c);
      assert [a[0]] + a[1..] == a;
    }
  }
}
