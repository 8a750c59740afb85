/**
 * `btoa` and `atob` as the browser provides them: `btoa` is the base64
 * encoding of section 4 of RFC 4648 applied to a string whose code units are
 * all below 256 (each taken as one byte), and `atob` is the forgiving-base64
 * decode of the WHATWG Infra standard, whose bytes come back as code units.
 */
module Base64 {
  import opened Wrappers
  import opened Bytes

  /** One base64 digit value. */
  type Sextet = x: int | 0 <= x < 64

  /** The alphabet of Table 1 in section 4 of RFC 4648. */
  function SextetChar(v: Sextet): char
  {
    if v < 26 then ('A' as int + v) as char
    else if v < 52 then ('a' as int + (v - 26)) as char
    else if v < 62 then ('0' as int + (v - 52)) as char
    else if v == 62 then '+'
    else '/'
  }

  /** The value of an alphabet character, `None` for any other character. */
  function CharSextet(c: char): (r: Option<Sextet>)
    ensures r.Some? ==> SextetChar(r.value) == c
  {
    if 'A' <= c <= 'Z' then Some(c as int - 'A' as int)
    else if 'a' <= c <= 'z' then Some(c as int - 'a' as int + 26)
    else if '0' <= c <= '9' then Some(c as int - '0' as int + 52)
    else if c == '+' then Some(62)
    else if c == '/' then Some(63)
    else None
  }

  lemma CharSextetOfSextetChar(v: Sextet)
    ensures CharSextet(SextetChar(v)) == Some(v)
  {
  }

  predicate InAlphabet(c: char) { CharSextet(c).Some? }

  /** ASCII whitespace as the Infra standard defines it: TAB, LF, FF, CR and SPACE. */
  predicate IsAsciiWhitespace(c: char)
  {
    c == '\t' || c == '\n' || c == '\U{C}' || c == '\r' || c == ' '
  }

  /** Digit values of the unpadded encoding: each 3-byte group gives 4 sextets, a trailing 1 or 2 bytes give 2 or 3. */
  function EncodeGroups(b: seq<Byte>): (s: seq<Sextet>)
    ensures |s| == 4 * (|b| / 3) + (if |b| % 3 == 0 then 0 else |b| % 3 + 1)
  {
    if |b| >= 3 then
      [b[0] / 4, (b[0] % 4) * 16 + b[1] / 16, (b[1] % 16) * 4 + b[2] / 64, b[2] % 64] + EncodeGroups(b[3..])
    else if |b| == 2 then [b[0] / 4, (b[0] % 4) * 16 + b[1] / 16, (b[1] % 16) * 4]
    else if |b| == 1 then [b[0] / 4, (b[0] % 4) * 16]
    else []
  }

  function Padding(n: nat): string
  {
    if n % 3 == 1 then "==" else if n % 3 == 2 then "=" else ""
  }

  function Digits(s: seq<Sextet>): (t: string)
    ensures |t| == |s| && forall i :: 0 <= i < |s| ==> t[i] == SextetChar(s[i])
  {
    seq(|s|, i requires 0 <= i < |s| => SextetChar(s[i]))
  }

  /** Base64 encoding with `=` padding (RFC 4648, section 4). */
  function Encode(b: seq<Byte>): (t: string)
    ensures |t| % 4 == 0 && |t| == 4 * ((|b| + 2) / 3)
  {
    PaddedLength(|b|);
    Digits(EncodeGroups(b)) + Padding(|b|)
  }

  /** Digits plus padding always fill whole 4-character quanta. */
  lemma PaddedLength(n: nat)
    ensures 4 * (n / 3) + (if n % 3 == 0 then 0 else n % 3 + 1) + |Padding(n)| == 4 * ((n + 2) / 3)
    ensures (4 * ((n + 2) / 3)) % 4 == 0
  {
    var q, r := n / 3, n % 3;
    assert n == 3 * q + r;
    assert (n + 2) / 3 == q + (if r == 0 then 0 else 1);
  }

  /** Bytes from digit values; leftover bits of a partial group are discarded. */
  function DecodeGroups(s: seq<Sextet>): (b: seq<Byte>)
    requires |s| % 4 != 1
  {
    if |s| >= 4 then
      [s[0] as int * 4 + s[1] / 16, (s[1] as int % 16) * 16 + s[2] / 4, (s[2] as int % 4) * 64 + s[3]]
        + DecodeGroups(s[4..])
    else if |s| == 3 then [s[0] as int * 4 + s[1] / 16, (s[1] as int % 16) * 16 + s[2] / 4]
    else if |s| == 2 then [s[0] as int * 4 + s[1] / 16]
    else []
  }

  function RemoveWhitespace(s: string): (t: string)
    ensures forall i :: 0 <= i < |t| ==> !IsAsciiWhitespace(t[i])
  {
    if s == [] then []
    else if IsAsciiWhitespace(s[0]) then RemoveWhitespace(s[1..])
    else [s[0]] + RemoveWhitespace(s[1..])
  }

  /** Step 2 of forgiving-base64 decode: on a length divisible by 4, drop one or two trailing `=`. */
  function RemovePadding(s: string): string
  {
    if |s| % 4 == 0 && |s| >= 2 && s[|s| - 2..] == "==" then s[..|s| - 2]
    else if |s| % 4 == 0 && |s| >= 1 && s[|s| - 1] == '=' then s[..|s| - 1]
    else s
  }

  /** Forgiving-base64 decode (WHATWG Infra standard): `None` is failure. */
  function ForgivingDecode(s: string): (r: Option<seq<Byte>>)
  {
    var data := RemovePadding(RemoveWhitespace(s));
    if |data| % 4 == 1 then None
    else if exists i :: 0 <= i < |data| && !InAlphabet(data[i]) then None
    else Some(DecodeGroups(seq(|data|, i requires 0 <= i < |data| => CharSextet(data[i]).value)))
  }

  predicate IsLatin1(s: string)
  {
    forall i :: 0 <= i < |s| ==> s[i] as int < 256
  }

  /** `String.fromCharCode(...bytes)`: one code unit per byte. */
  function FromBytes(b: seq<Byte>): (s: string)
    ensures |s| == |b| && IsLatin1(s)
    ensures forall i :: 0 <= i < |b| ==> s[i] as int == b[i]
  {
    seq(|b|, i requires 0 <= i < |b| => b[i] as char)
  }

  /** The code units of a Latin-1 string, as bytes. */
  function ToBytes(s: string): (b: seq<Byte>)
    requires IsLatin1(s)
    ensures |b| == |s| && forall i :: 0 <= i < |s| ==> b[i] == s[i] as int
  {
    seq(|s|, i requires 0 <= i < |s| => s[i] as int)
  }

  const InvalidCharacterError := "InvalidCharacterError"

  /**
   * `btoa(s)`: throws InvalidCharacterError when some code unit is above 255;
   * otherwise the result is the base64 of those code units, and `atob` reads it back.
   */
  function Btoa(s: string): (r: Result<string, string>)
    ensures r.Success? <==> IsLatin1(s)
    ensures r.Success? ==> r.value == Encode(ToBytes(s))
    ensures r.Success? ==> Atob(r.value) == Success(s)
  {
    if IsLatin1(s) then
      DecodeEncode(ToBytes(s));
      assert FromBytes(ToBytes(s)) == s;
      Success(Encode(ToBytes(s)))
    else
      Failure(InvalidCharacterError)
  }

  /** `atob(s)`: throws InvalidCharacterError when `s` is not forgiving-base64. */
  function Atob(s: string): (r: Result<string, string>)
    ensures r.Success? ==> IsLatin1(r.value)
    ensures r.Success? <==> ForgivingDecode(s).Some?
  {
    match ForgivingDecode(s)
    case Some(b) => Success(FromBytes(b))
    case None => Failure(InvalidCharacterError)
  }

  // ---------------------------------------------------------------------------
  // Round trip

  lemma GroupRoundTrip(a: Byte, b: Byte, c: Byte)
    ensures var s1 := (a % 4) * 16 + b / 16;
            var s2 := (b % 16) * 4 + c / 64;
            && a / 4 * 4 + s1 / 16 == a
            && (s1 % 16) * 16 + s2 / 4 == b
            && (s2 % 4) * 64 + c % 64 == c
  {
    var s1 := (a % 4) * 16 + b / 16;
    var s2 := (b % 16) * 4 + c / 64;
    assert s1 / 16 == a % 4 && s1 % 16 == b / 16;
    assert s2 / 4 == b % 16 && s2 % 4 == c / 64;
  }

  lemma {:induction false} DecodeEncodeGroups(b: seq<Byte>)
    ensures |EncodeGroups(b)| % 4 != 1
    ensures DecodeGroups(EncodeGroups(b)) == b
  {
    if |b| >= 3 {
      DecodeEncodeGroups(b[3..]);
      FirstGroup(b);
      assert b == b[..3] + b[3..];
    } else {
      LastGroup(b);
    }
  }

  /** A whole first group decodes to its three bytes, ahead of whatever the rest decodes to. */
  lemma FirstGroup(b: seq<Byte>)
    requires |b| >= 3 && |EncodeGroups(b[3..])| % 4 != 1
    ensures |EncodeGroups(b)| % 4 != 1
    ensures DecodeGroups(EncodeGroups(b)) == b[..3] + DecodeGroups(EncodeGroups(b[3..]))
  {
    var s := EncodeGroups(b);
    GroupRoundTrip(b[0], b[1], b[2]);
    assert s[4..] == EncodeGroups(b[3..]);
    var m := |s[4..]|;
    assert |s| == m + 4 && (m + 4) % 4 == m % 4;
    var first := [s[0] as int * 4 + s[1] / 16, (s[1] as int % 16) * 16 + s[2] / 4, (s[2] as int % 4) * 64 + s[3]];
    assert first == b[..3];
    assert DecodeGroups(s) == first + DecodeGroups(s[4..]);
  }

  /** A trailing one or two bytes decode back from their two or three digits. */
  lemma LastGroup(b: seq<Byte>)
    requires |b| < 3
    ensures |EncodeGroups(b)| % 4 != 1
    ensures DecodeGroups(EncodeGroups(b)) == b
  {
    if |b| == 2 {
      GroupRoundTrip(b[0], b[1], 0);
    } else if |b| == 1 {
      GroupRoundTrip(b[0], 0, 0);
    }
  }

  lemma {:induction false} RemoveWhitespaceOfClean(s: string)
    requires forall i :: 0 <= i < |s| ==> !IsAsciiWhitespace(s[i])
    ensures RemoveWhitespace(s) == s
  {
    if s != [] {
      RemoveWhitespaceOfClean(s[1..]);
    }
  }

  /** The padding of an encoding is exactly what step 2 of the decoder strips. */
  lemma RemovePaddingOfEncode(b: seq<Byte>)
    ensures RemovePadding(Encode(b)) == Digits(EncodeGroups(b))
  {
    var groups := EncodeGroups(b);
    var digits := Digits(groups);
    var t := Encode(b);
    assert t == digits + Padding(|b|);
    if |b| % 3 == 0 {
      if |digits| > 0 {
        assert t[|t| - 1] == SextetChar(groups[|groups| - 1]);
        assert t[|t| - 2..][1] == t[|t| - 1];
      }
    } else if |b| % 3 == 2 {
      assert t[|t| - 2] == SextetChar(groups[|groups| - 1]);
      assert t[|t| - 2..][0] == t[|t| - 2];
      assert t[..|t| - 1] == digits;
    } else {
      assert t[|t| - 2..] == "==";
      assert t[..|t| - 2] == digits;
    }
  }

  lemma DigitValues(s: seq<Sextet>)
    ensures forall i :: 0 <= i < |s| ==> InAlphabet(Digits(s)[i])
    ensures seq(|s|, i requires 0 <= i < |s| => CharSextet(Digits(s)[i]).value) == s
  {
    forall i | 0 <= i < |s|
      ensures InAlphabet(Digits(s)[i]) && CharSextet(Digits(s)[i]).value == s[i]
    {
      CharSextetOfSextetChar(s[i]);
    }
  }

  /** Decoding an encoding gives the bytes back. */
  lemma DecodeEncode(b: seq<Byte>)
    ensures ForgivingDecode(Encode(b)) == Some(b)
  {
    var groups := EncodeGroups(b);
    var t := Encode(b);
    forall i | 0 <= i < |t| ensures !IsAsciiWhitespace(t[i]) {
      if i < |groups| {
        assert t[i] == SextetChar(groups[i]);
      }
    }
    RemoveWhitespaceOfClean(t);
    RemovePaddingOfEncode(b);
    DecodeEncodeGroups(b);
    DigitValues(groups);
  }
}
