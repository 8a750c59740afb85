/**
 * The key-obfuscation codec of src/ED.js: `E` UTF-8-encodes the text, XORs
 * each byte with the key's bytes taken cyclically and base64-encodes the
 * result; `D` undoes the three steps in reverse order.
 */
module ED {
  import opened Wrappers
  import opened Bytes
  import Utf8
  import Base64

  /**
   * `keyBytes[index % keyBytes.length]` as the XOR operand: with an empty key
   * the index is NaN, the element `undefined`, and `byte ^ undefined` is
   * `byte ^ 0`.
   */
  function KeyByteAt(key: seq<Byte>, i: nat): (k: Byte)
    ensures |key| > 0 ==> k == key[i % |key|]
    ensures |key| == 0 ==> k == 0
  {
    if |key| == 0 then 0 else key[i % |key|]
  }

  /** `bytes.map((byte, index) => byte ^ keyByte)` on a `Uint8Array`. */
  function XorStage(bytes: seq<Byte>, key: seq<Byte>): (r: seq<Byte>)
    ensures |r| == |bytes|
    ensures forall i :: 0 <= i < |bytes| ==> r[i] == ToUint8(Xor(bytes[i], KeyByteAt(key, i)))
  {
    seq(|bytes|, i requires 0 <= i < |bytes| => ToUint8(Xor(bytes[i], KeyByteAt(key, i))))
  }

  /** The exclusive or of two bytes already fits a `Uint8Array` slot: the map loses nothing. */
  lemma XorStageExact(bytes: seq<Byte>, key: seq<Byte>)
    ensures forall i :: 0 <= i < |bytes| ==> XorStage(bytes, key)[i] == Xor(bytes[i], KeyByteAt(key, i))
  {
    forall i | 0 <= i < |bytes|
      ensures XorStage(bytes, key)[i] == Xor(bytes[i], KeyByteAt(key, i))
    {
      XorOfBytes(bytes[i], KeyByteAt(key, i));
    }
  }

  /** The XOR stage is its own inverse under the same key. */
  lemma XorStageInvolution(bytes: seq<Byte>, key: seq<Byte>)
    ensures XorStage(XorStage(bytes, key), key) == bytes
  {
    var once := XorStage(bytes, key);
    XorStageExact(bytes, key);
    XorStageExact(once, key);
    forall i | 0 <= i < |bytes|
      ensures XorStage(once, key)[i] == bytes[i]
    {
      XorXor(bytes[i], KeyByteAt(key, i));
    }
  }

  /** `E(text, key)`; a `Failure` would be the exception `btoa` throws. */
  function E(text: string, key: string): (r: Result<string, string>)
  {
    var eb := XorStage(Utf8.Encode(text), Utf8.Encode(key));
    Base64.Btoa(Base64.FromBytes(eb))
  }

  /** `new Uint8Array(codes)`: each code unit is stored modulo 256. */
  function CodesToUint8(s: string): (b: seq<Byte>)
    ensures |b| == |s|
  {
    seq(|s|, i requires 0 <= i < |s| => ToUint8(s[i] as int))
  }

  /**
   * `D(eb64, key)`; a `Failure` is the exception `atob` throws on input that is
   * not base64. The final `new TextDecoder().decode` drops a leading byte-order mark.
   */
  function D(eb64: string, key: string): (r: Result<string, string>)
  {
    match Base64.Atob(eb64)
    case Failure(e) => Failure(e)
    case Success(s) => Success(Utf8.TextDecode(XorStage(CodesToUint8(s), Utf8.Encode(key))))
  }

  /** `D` with a decoder that keeps a leading U+FEFF (`ignoreBOM: true`). */
  function DecodeKeepingBom(eb64: string, key: string): (r: Result<string, string>)
  {
    match Base64.Atob(eb64)
    case Failure(e) => Failure(e)
    case Success(s) => Success(Utf8.Decode(XorStage(CodesToUint8(s), Utf8.Encode(key))))
  }

  /**
   * The string handed to `btoa` is Latin-1, so `E` never throws; the token is the
   * base64 of the XORed UTF-8 bytes, byte `i` being `text[i] ^ key[i mod |key|]`,
   * and there are exactly as many of them as the text has UTF-8 bytes.
   */
  lemma EncodeShape(text: string, key: string)
    ensures E(text, key).Success?
    ensures var t := Utf8.Encode(text);
            var k := Utf8.Encode(key);
            exists eb: seq<Byte> ::
              && E(text, key).value == Base64.Encode(eb)
              && |eb| == |t|
              && forall i :: 0 <= i < |t| ==> eb[i] == Xor(t[i], KeyByteAt(k, i))
  {
    var t := Utf8.Encode(text);
    var k := Utf8.Encode(key);
    var eb := XorStage(t, k);
    XorStageExact(t, k);
    assert Base64.ToBytes(Base64.FromBytes(eb)) == eb;
  }

  /** `atob` returns only code units below 256, so `new Uint8Array` keeps every one intact. */
  lemma AtobCodesAreBytes(eb64: string)
    requires Base64.Atob(eb64).Success?
    ensures CodesToUint8(Base64.Atob(eb64).value) == Base64.ToBytes(Base64.Atob(eb64).value)
  {
  }

  /** With an empty key `E` is plain base64 of the UTF-8 bytes. */
  lemma EmptyKey(text: string)
    ensures E(text, "") == Success(Base64.Encode(Utf8.Encode(text)))
  {
    var t := Utf8.Encode(text);
    assert Utf8.Encode("") == [];
    forall i | 0 <= i < |t| ensures XorStage(t, [])[i] == t[i] {
      XorZero(t[i]);
    }
    assert XorStage(t, []) == t;
    assert Base64.ToBytes(Base64.FromBytes(t)) == t;
  }

  /** The bytes `D` decodes from a token `E` made are the UTF-8 bytes of the text. */
  lemma XorBytesOfToken(text: string, key: string)
    ensures E(text, key).Success?
    ensures var s := Base64.Atob(E(text, key).value);
            s.Success? && XorStage(CodesToUint8(s.value), Utf8.Encode(key)) == Utf8.Encode(text)
  {
    var t := Utf8.Encode(text);
    var k := Utf8.Encode(key);
    var eb := XorStage(t, k);
    var latin := Base64.FromBytes(eb);
    assert CodesToUint8(latin) == eb;
    XorStageInvolution(t, k);
  }

  /**
   * `D(E(x, k), k) == x` for every key and every text that does not start with
   * U+FEFF; a leading U+FEFF is dropped by the decoder.
   */
  lemma DecodeEncode(text: string, key: string)
    ensures E(text, key).Success?
    ensures D(E(text, key).value, key) == Success(if Utf8.StartsWithBom(text) then text[1..] else text)
  {
    XorBytesOfToken(text, key);
    Utf8.TextDecodeEncode(text);
  }

  /** As written, a text that starts with U+FEFF does not survive `D(E(text, key), key)`. */
  lemma BomLost(rest: string, key: string)
    ensures E("\U{FEFF}" + rest, key).Success?
    ensures D(E("\U{FEFF}" + rest, key).value, key) == Success(rest)
    ensures D(E("\U{FEFF}" + rest, key).value, key) != Success("\U{FEFF}" + rest)
  {
    var text := "\U{FEFF}" + rest;
    DecodeEncode(text, key);
    assert text[1..] == rest;
    assert |text| != |rest|;
  }

  /** With the byte-order mark kept, decoding inverts `E` for every text and every key. */
  lemma DecodeKeepingBomEncode(text: string, key: string)
    ensures E(text, key).Success?
    ensures DecodeKeepingBom(E(text, key).value, key) == Success(text)
  {
    XorBytesOfToken(text, key);
    Utf8.DecodeEncode(text);
  }
}
