/** Bytes, key and IV sizes, and the primitives the vaults call but do not
    implement: AES-GCM, UTF-8 and Base64. Each primitive is a value that is
    handed to a vault when it is built; a `...Sound` predicate states the laws
    the real library obeys and the vault laws rest on. */
module Crypto {
  import opened Results

  newtype byte = b: int | 0 <= b < 256

  const KEY_LENGTH: nat := 32  // AES-256
  const IV_LENGTH: nat := 12   // the 96-bit GCM IV recommended in section 5.2.1.1 of NIST SP 800-38D
  const TAG_LENGTH: nat := 16  // a 128-bit authentication tag

  type Key = k: seq<byte> | |k| == KEY_LENGTH witness seq(32, i => 0 as byte)
  type Iv = v: seq<byte> | |v| == IV_LENGTH witness seq(12, i => 0 as byte)

  /** AES/GCM/NoPadding: `seal` returns ciphertext followed by the tag, `open`
      returns `None` when the tag does not verify. */
  datatype Aead = Aead(
    seal: (Key, seq<byte>, seq<byte>) -> seq<byte>,
    open: (Key, seq<byte>, seq<byte>) -> Option<seq<byte>>)

  ghost predicate AeadSound(aead: Aead)
  {
    && (forall key, iv, plain :: aead.open(key, iv, aead.seal(key, iv, plain)) == Some(plain))
    && (forall key, iv, plain :: |aead.seal(key, iv, plain)| == |plain| + TAG_LENGTH)
    && (forall key, iv, sealed :: |sealed| < TAG_LENGTH ==> aead.open(key, iv, sealed) == None)
  }

  /** `encodeToByteArray` / `decodeToString` (and `toByteArray(UTF_8)` /
      `toString(UTF_8)`). */
  datatype TextCodec = TextCodec(encode: string -> seq<byte>, decode: seq<byte> -> string)

  ghost predicate TextSound(text: TextCodec)
  {
    forall s :: text.decode(text.encode(s)) == s
  }

  /** `Base64.encodeToString` / `Base64.decode`; decoding fails on text that
      is not Base64. */
  datatype Base64Codec = Base64Codec(encode: seq<byte> -> string, decode: string -> Option<seq<byte>>)

  ghost predicate Base64Sound(base64: Base64Codec)
  {
    forall bytes :: base64.decode(base64.encode(bytes)) == Some(bytes)
  }
}
