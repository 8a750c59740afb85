/**
 * UTF-8 as `TextEncoder` and `TextDecoder` apply it: encoding follows
 * RFC 3629 (one to four bytes per Unicode scalar value); decoding follows the
 * WHATWG Encoding standard's UTF-8 decoder in its default (non-fatal) mode, so
 * every ill-formed subsequence becomes one U+FFFD instead of an error.
 */
module Utf8 {
  import opened Bytes

  const Replacement: char := '\U{FFFD}'

  /** The bytes of one scalar value (RFC 3629, section 3). */
  function EncodeChar(c: char): (b: seq<Byte>)
    ensures 1 <= |b| <= 4
  {
    var n := c as int;
    if n < 0x80 then [n]
    else if n < 0x800 then [0xC0 + n / 64, 0x80 + n % 64]
    else if n < 0x10000 then [0xE0 + n / 4096, 0x80 + n / 64 % 64, 0x80 + n % 64]
    else [0xF0 + n / 262144, 0x80 + n / 4096 % 64, 0x80 + n / 64 % 64, 0x80 + n % 64]
  }

  /** `new TextEncoder().encode(s)`. */
  function Encode(s: string): (b: seq<Byte>)
    ensures |s| <= |b| <= 4 * |s|
  {
    if s == [] then [] else EncodeChar(s[0]) + Encode(s[1..])
  }

  /** Byte `i` exists and lies in `lo..hi`: the decoder's continuation-byte test. */
  predicate ContinuesAt(b: seq<Byte>, i: nat, lo: int, hi: int)
  {
    i < |b| && lo <= b[i] <= hi
  }

  /**
   * One step of the WHATWG UTF-8 decoder, starting at a lead byte: the decoded
   * scalar value and the number of bytes consumed. On a bad continuation byte
   * the decoder emits U+FFFD and leaves that byte for the next step; at the end
   * of input inside a sequence it emits one U+FFFD for the whole tail.
   */
  function DecodeOne(b: seq<Byte>): (r: (char, nat))
    requires |b| > 0
    ensures 1 <= r.1 <= |b|
  {
    var lead: int := b[0];
    if lead < 0x80 then (lead as char, 1)
    else if 0xC2 <= lead <= 0xDF then
      if ContinuesAt(b, 1, 0x80, 0xBF) then (((lead - 0xC0) * 64 + (b[1] as int - 0x80)) as char, 2)
      else (Replacement, 1)
    else if 0xE0 <= lead <= 0xEF then
      var lo := if lead == 0xE0 then 0xA0 else 0x80;
      var hi := if lead == 0xED then 0x9F else 0xBF;
      if !ContinuesAt(b, 1, lo, hi) then (Replacement, 1)
      else if !ContinuesAt(b, 2, 0x80, 0xBF) then (Replacement, 2)
      else (((lead - 0xE0) * 4096 + (b[1] as int - 0x80) * 64 + (b[2] as int - 0x80)) as char, 3)
    else if 0xF0 <= lead <= 0xF4 then
      var lo := if lead == 0xF0 then 0x90 else 0x80;
      var hi := if lead == 0xF4 then 0x8F else 0xBF;
      if !ContinuesAt(b, 1, lo, hi) then (Replacement, 1)
      else if !ContinuesAt(b, 2, 0x80, 0xBF) then (Replacement, 2)
      else if !ContinuesAt(b, 3, 0x80, 0xBF) then (Replacement, 3)
      else (((lead - 0xF0) * 262144 + (b[1] as int - 0x80) * 4096 + (b[2] as int - 0x80) * 64 + (b[3] as int - 0x80)) as char, 4)
    else (Replacement, 1)
  }

  /** The WHATWG UTF-8 decoder over the whole input: `new TextDecoder("utf-8", { ignoreBOM: true }).decode(b)`. */
  function Decode(b: seq<Byte>): (s: string)
    ensures |s| <= |b|
    decreases |b|
  {
    if b == [] then []
    else
      var (c, n) := DecodeOne(b);
      [c] + Decode(b[n..])
  }

  /** U+FEFF, the byte-order mark, in UTF-8. */
  const Bom: seq<Byte> := [0xEF, 0xBB, 0xBF]

  predicate StartsWithBom(s: string)
  {
    |s| > 0 && s[0] == '\U{FEFF}'
  }

  /**
   * `new TextDecoder().decode(b)`: `ignoreBOM` is false by default, so a leading
   * byte-order mark is consumed and not part of the text.
   */
  function TextDecode(b: seq<Byte>): (s: string)
    ensures |s| <= |b|
  {
    if |b| >= 3 && b[..3] == Bom then Decode(b[3..]) else Decode(b)
  }

  /** The decoder reads back exactly the scalar value an encoded prefix holds. */
  lemma DecodeOneEncodeChar(c: char, rest: seq<Byte>)
    ensures DecodeOne(EncodeChar(c) + rest) == (c, |EncodeChar(c)|)
  {
    var n := c as int;
    if n < 0x80 {
    } else if n < 0x800 {
      assert (n / 64) * 64 + n % 64 == n;
    } else if n < 0x10000 {
      DecodeThree(c, rest);
    } else {
      DecodeFour(c, rest);
    }
  }

  lemma DecodeThree(c: char, rest: seq<Byte>)
    requires 0x800 <= c as int < 0x10000
    ensures DecodeOne(EncodeChar(c) + rest) == (c, 3)
  {
    var n := c as int;
    ThreeDigits(n);
  }

  /** The base-64 digits of a value below 2^16 and the bounds the decoder checks on them. */
  lemma ThreeDigits(n: int)
    requires 0x800 <= n < 0x10000 && (n < 0xD800 || n > 0xDFFF)
    ensures n == (n / 4096) * 4096 + (n / 64 % 64) * 64 + n % 64
    ensures n / 4096 == 0 ==> n / 64 % 64 >= 32
    ensures n / 4096 == 13 ==> n / 64 % 64 < 32
  {
    assert n / 64 == (n / 4096) * 64 + n / 64 % 64;
  }

  lemma DecodeFour(c: char, rest: seq<Byte>)
    requires 0x10000 <= c as int
    ensures DecodeOne(EncodeChar(c) + rest) == (c, 4)
  {
    var n := c as int;
    FourDigits(n);
  }

  /** The base-64 digits of a supplementary scalar value and the bounds the decoder checks on them. */
  lemma FourDigits(n: int)
    requires 0x10000 <= n < 0x110000
    ensures n == (n / 262144) * 262144 + (n / 4096 % 64) * 4096 + (n / 64 % 64) * 64 + n % 64
    ensures n / 262144 == 0 ==> n / 4096 % 64 >= 16
    ensures n / 262144 == 4 ==> n / 4096 % 64 < 16
  {
    assert n / 4096 == (n / 262144) * 64 + n / 4096 % 64;
    assert n / 64 == (n / 4096) * 64 + n / 64 % 64;
  }

  /** `TextDecoder` inverts `TextEncoder` (RFC 3629 round trip). */
  lemma {:induction false} DecodeEncode(s: string)
    ensures Decode(Encode(s)) == s
  {
    if s != [] {
      var head := EncodeChar(s[0]);
      var rest := Encode(s[1..]);
      DecodeOneEncodeChar(s[0], rest);
      assert (head + rest)[|head|..] == rest;
      DecodeEncode(s[1..]);
      assert [s[0]] + s[1..] == s;
    }
  }

  /** Only U+FEFF encodes to bytes that start with the byte-order mark. */
  lemma BomOnlyFromFeff(c: char, rest: seq<Byte>)
    ensures var b := EncodeChar(c) + rest;
            |b| >= 3 && b[..3] == Bom ==> c == '\U{FEFF}'
  {
    var b := EncodeChar(c) + rest;
    if |b| >= 3 && b[..3] == Bom {
      DecodeOneEncodeChar(c, rest);
      assert b == EncodeChar('\U{FEFF}') + b[3..];
      DecodeOneEncodeChar('\U{FEFF}', b[3..]);
    }
  }

  /**
   * `new TextDecoder().decode(new TextEncoder().encode(s))` gives `s` back,
   * except that a leading U+FEFF is lost.
   */
  lemma TextDecodeEncode(s: string)
    ensures TextDecode(Encode(s)) == if StartsWithBom(s) then s[1..] else s
  {
    DecodeEncode(s);
    if s != [] {
      var rest := Encode(s[1..]);
      assert Encode(s) == EncodeChar(s[0]) + rest;
      BomOnlyFromFeff(s[0], rest);
      if s[0] == '\U{FEFF}' {
        BomDropped(rest);
        DecodeEncode(s[1..]);
      }
    }
  }

  /** The decoder skips the encoded byte-order mark and decodes what follows. */
  lemma BomDropped(rest: seq<Byte>)
    ensures TextDecode(EncodeChar('\U{FEFF}') + rest) == Decode(rest)
  {
    var b := EncodeChar('\U{FEFF}') + rest;
    assert EncodeChar('\U{FEFF}') == Bom;
    assert b[..3] == Bom && b[3..] == rest;
  }
}
