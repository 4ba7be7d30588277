/**
 * The handful of PHP runtime behaviours the library relies on, stated
 * explicitly: `empty()` on strings, integer <-> decimal string conversion,
 * and the path helpers `pathinfo` (dirname, basename, extension), `substr`
 * and `strcasecmp`.  The directory separator is '/'.
 */
module Php {
  import opened Wrappers

  const Separator: char := '/'

  /** PHP's `empty($s)` for a string: both "" and "0" are empty. */
  predicate EmptyString(s: string) {
    s == "" || s == "0"
  }

  predicate IsDigit(c: char) {
    '0' <= c <= '9'
  }

  predicate AllDigits(s: string) {
    forall i :: 0 <= i < |s| ==> IsDigit(s[i])
  }

  function DigitChar(d: nat): (c: char)
    requires d < 10
    ensures IsDigit(c) && c as int - '0' as int == d
  {
    ('0' as int + d) as char
  }

  /** The decimal digits PHP prints for a non-negative integer. */
  function NatToDecimal(n: nat): (r: string)
    ensures |r| >= 1 && AllDigits(r)
    ensures |r| > 1 ==> r[0] != '0'
    decreases n
  {
    if n < 10 then [DigitChar(n)] else NatToDecimal(n / 10) + [DigitChar(n % 10)]
  }

  /** PHP's int-to-string conversion (used when an int is stored in an XML attribute). */
  function IntToDecimal(i: int): (r: string)
    ensures |r| >= 1
    ensures (i < 0) <==> r[0] == '-'
  {
    if i < 0 then "-" + NatToDecimal(-i) else NatToDecimal(i)
  }

  function DigitsValue(s: string): nat
    requires AllDigits(s)
  {
    if s == [] then 0 else DigitsValue(s[..|s| - 1]) * 10 + (s[|s| - 1] as int - '0' as int)
  }

  /**
   * The integer a numeric string denotes, as PHP reads an attribute into an
   * `int` property or compares it loosely with an int: an optional '-' and
   * one or more decimal digits.  Anything else is not numeric (None).
   */
  function ParseInt(s: string): (r: Option<int>)
    ensures r.Some? <==> (|s| >= 1 && AllDigits(s)) || (|s| >= 2 && s[0] == '-' && AllDigits(s[1..]))
  {
    if |s| >= 1 && AllDigits(s) then Some(DigitsValue(s))
    else if |s| >= 2 && s[0] == '-' && AllDigits(s[1..]) then Some(0 - DigitsValue(s[1..]))
    else None
  }

  lemma {:induction false} DigitsValueOfDecimal(n: nat)
    ensures DigitsValue(NatToDecimal(n)) == n
    decreases n
  {
    if n >= 10 {
      var s := NatToDecimal(n);
      assert s[..|s| - 1] == NatToDecimal(n / 10);
      DigitsValueOfDecimal(n / 10);
    }
  }

  /** An integer written into an attribute reads back as the same integer. */
  lemma IntDecimalRoundTrip(i: int)
    ensures ParseInt(IntToDecimal(i)) == Some(i)
  {
    var s := IntToDecimal(i);
    if i < 0 {
      var d := NatToDecimal(-i);
      assert s == "-" + d;
      assert s[1..] == d;
      assert !IsDigit(s[0]);
      DigitsValueOfDecimal(-i);
    } else {
      DigitsValueOfDecimal(i);
    }
  }

  /** `substr($s, $start)` for a non-negative start: "" once start reaches the end. */
  function Substr(s: string, start: nat): (r: string)
    ensures start <= |s| ==> s == s[..start] + r
    ensures start >= |s| ==> r == ""
  {
    if start >= |s| then "" else s[start..]
  }

  /** ASCII lower-casing, as `strcasecmp` compares. */
  function LowerAscii(c: char): char {
    if 'A' <= c <= 'Z' then (c as int + 32) as char else c
  }

  /**
   * ASCII lower-casing of a whole string, as `hash_file` applies to the
   * algorithm name before it looks the algorithm up.
   */
  function LowerAsciiString(s: string): (r: string)
    ensures |r| == |s|
    ensures forall i :: 0 <= i < |s| ==> r[i] == LowerAscii(s[i])
    ensures (forall i :: 0 <= i < |s| ==> !('A' <= s[i] <= 'Z')) ==> r == s
  {
    seq(|s|, i requires 0 <= i < |s| => LowerAscii(s[i]))
  }

  /** `strcasecmp($a, $b) == 0`. */
  predicate EqualsIgnoreCase(a: string, b: string) {
    |a| == |b| && forall i :: 0 <= i < |a| ==> LowerAscii(a[i]) == LowerAscii(b[i])
  }

  function StripTrailingSeparators(s: string): (r: string)
    ensures |r| <= |s| && r == s[..|r|]
    ensures r == [] || r[|r| - 1] != Separator
    ensures forall i :: |r| <= i < |s| ==> s[i] == Separator
  {
    if s == [] || s[|s| - 1] != Separator then s else StripTrailingSeparators(s[..|s| - 1])
  }

  function StripLastComponent(s: string): (r: string)
    ensures |r| <= |s| && r == s[..|r|]
    ensures r == [] || r[|r| - 1] == Separator
    ensures forall i :: |r| <= i < |s| ==> s[i] != Separator
  {
    if s == [] || s[|s| - 1] == Separator then s else StripLastComponent(s[..|s| - 1])
  }

  /**
   * `pathinfo($path, PATHINFO_DIRNAME)`: drop trailing separators, then the
   * last component, then the separators before it; "/" when only the root
   * remains, "." when there was no separator, "" for the empty path.
   */
  function DirName(path: string): (r: string)
    ensures path != [] ==> r != []
  {
    if path == [] then ""
    else
      var noTrail := StripTrailingSeparators(path);
      if noTrail == [] then [Separator]
      else
        var parent := StripLastComponent(noTrail);
        if parent == [] then "."
        else
          var dir := StripTrailingSeparators(parent);
          if dir == [] then [Separator] else dir
  }

  /** `pathinfo($path, PATHINFO_BASENAME)`: the last component, trailing separators ignored. */
  function BaseName(path: string): (r: string)
    ensures forall i :: 0 <= i < |r| ==> r[i] != Separator
  {
    var noTrail := StripTrailingSeparators(path);
    var parent := StripLastComponent(noTrail);
    noTrail[|parent|..]
  }

  /** A single path component: non-empty and free of separators. */
  predicate IsComponent(name: string) {
    name != [] && forall i :: 0 <= i < |name| ==> name[i] != Separator
  }

  /** A directory path that `dirname` gives back unchanged: non-empty, no trailing separator. */
  predicate IsPlainDirectory(dir: string) {
    dir != [] && dir[|dir| - 1] != Separator
  }

  lemma JoinStrips(dir: string, name: string)
    requires IsPlainDirectory(dir) && IsComponent(name)
    ensures StripTrailingSeparators(dir + [Separator] + name) == dir + [Separator] + name
    ensures StripLastComponent(dir + [Separator] + name) == dir + [Separator]
  {
    var p := dir + [Separator] + name;
    var parent := StripLastComponent(p);
    assert p[|dir|] == Separator;
    assert |parent| >= |dir| + 1;
  }

  /** The directory part of "dir/name" is dir itself. */
  lemma DirNameOfJoin(dir: string, name: string)
    requires IsPlainDirectory(dir) && IsComponent(name)
    ensures DirName(dir + [Separator] + name) == dir
  {
    JoinStrips(dir, name);
    var parent := dir + [Separator];
    assert StripTrailingSeparators(parent) == StripTrailingSeparators(dir) by {
      assert parent[..|parent| - 1] == dir;
    }
  }

  /** The base name of "dir/name" is name. */
  lemma BaseNameOfJoin(dir: string, name: string)
    requires IsComponent(name)
    ensures BaseName(dir + [Separator] + name) == name
  {
    var p := dir + [Separator] + name;
    assert StripTrailingSeparators(p) == p;
    var parent := StripLastComponent(p);
    assert p[|dir|] == Separator;
    assert |parent| >= |dir| + 1;
  }

  /** The position just after the last '.' of name, if any. */
  function AfterLastDot(name: string): (r: Option<nat>)
    ensures r.Some? ==>
      && 1 <= r.value <= |name| && name[r.value - 1] == '.'
      && forall i :: r.value <= i < |name| ==> name[i] != '.'
    ensures r.None? ==> forall i :: 0 <= i < |name| ==> name[i] != '.'
  {
    if name == [] then None
    else if name[|name| - 1] == '.' then Some(|name|)
    else AfterLastDot(name[..|name| - 1])
  }

  /** `pathinfo($path, PATHINFO_EXTENSION)`: what follows the last '.' of the base name, or "". */
  function Extension(path: string): (r: string)
  {
    var base := BaseName(path);
    match AfterLastDot(base)
    case None => ""
    case Some(k) => base[k..]
  }
}
