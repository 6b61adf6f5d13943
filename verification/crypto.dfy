/** The cryptographic helpers of the onion-routing workshop. The webcrypto
    primitives (RSA-OAEP with SHA-256, AES-CBC with a 256-bit key, key export
    and import), Node's base64 `Buffer` codec and the UTF-8 text codec are
    foreign code: they appear as function-valued fields of `Primitives`, and
    the laws they are trusted to obey are the hypotheses of the lemmas below.
    What the repository itself defines is modelled concretely: the
    composition of those primitives in each helper, the byte-order-mark
    handling of the default `TextDecoder`, and the byte layout of a symmetric
    ciphertext, a 16-byte IV followed by the AES-CBC output. */
module Crypto {
  import opened Wrappers
  import Registry
  import Base64

  type Bytes = seq<bv8>

  /** AES-CBC requires a 16-byte IV; `symEncrypt` generates exactly that many random bytes. */
  const IvLength: nat := 16

  /** U+FEFF, the byte order mark; UTF-8 encodes it as EF BB BF. */
  const Bom: char := '\U{FEFF}'

  /** `arrayBufferToBase64` and `base64ToArrayBuffer`. */
  datatype Base64Codec = Base64Codec(toBase64: Bytes -> string, fromBase64: string -> Bytes)

  /** `TextEncoder.encode`, and the UTF-8 decoding a `TextDecoder` performs
      before it looks for a byte order mark (what it returns with `ignoreBOM: true`). */
  datatype Utf8Codec = Utf8Codec(encode: string -> Bytes, decode: Bytes -> string)

  /** webcrypto AES-CBC on keys of type K: encryption under an IV, a decryption
      that may reject (wrong key, bad padding, bad IV), and raw export/import. */
  datatype AesCbc<!K> = AesCbc(
    encrypt: (K, Bytes, Bytes) -> Bytes,
    decrypt: (K, Bytes, Bytes) -> Option<Bytes>,
    exportRaw: K -> Bytes,
    importRaw: Bytes -> Option<K>)

  /** webcrypto RSA-OAEP: encryption may reject (message too long for the
      modulus), so may decryption; keys travel as SPKI (public) and PKCS#8
      (private) buffers. OAEP padding is randomized; `encrypt` stands for one
      fixed choice of the random seed per input. */
  datatype RsaOaep<!Pub, !Prv> = RsaOaep(
    encrypt: (Pub, Bytes) -> Option<Bytes>,
    decrypt: (Prv, Bytes) -> Option<Bytes>,
    exportSpki: Pub -> Bytes,
    importSpki: Bytes -> Option<Pub>,
    exportPkcs8: Prv -> Bytes,
    importPkcs8: Bytes -> Option<Prv>)

  datatype Primitives<!K, !Pub, !Prv> = Primitives(
    base64: Base64Codec,
    utf8: Utf8Codec,
    aes: AesCbc<K>,
    rsa: RsaOaep<Pub, Prv>)

  /** Decoding undoes encoding, for every buffer. */
  ghost predicate Base64RoundTrips(c: Base64Codec) {
    forall b :: c.fromBase64(c.toBase64(b)) == b
  }

  /** UTF-8 decoding undoes encoding, for every well-formed Unicode text.
      Dafny strings hold Unicode scalar values only; a JavaScript string with
      an unpaired surrogate, which `TextEncoder` replaces by U+FFFD, is outside
      this law and outside the model. */
  ghost predicate Utf8RoundTrips(c: Utf8Codec) {
    forall s :: c.decode(c.encode(s)) == s
  }

  /** AES-CBC decryption undoes encryption under the same key and IV. */
  ghost predicate AesCbcInverts<K(!new)>(a: AesCbc<K>) {
    forall k, iv, m :: |iv| == IvLength ==> a.decrypt(k, iv, a.encrypt(k, iv, m)) == Some(m)
  }

  /** A raw export imports back to the same key. */
  ghost predicate AesKeysRoundTrip<K(!new)>(a: AesCbc<K>) {
    forall k :: a.importRaw(a.exportRaw(k)) == Some(k)
  }

  /** Exported RSA keys import back to the same keys. */
  ghost predicate RsaKeysRoundTrip<Pub(!new), Prv(!new)>(a: RsaOaep<Pub, Prv>) {
    && (forall pub :: a.importSpki(a.exportSpki(pub)) == Some(pub))
    && (forall prv :: a.importPkcs8(a.exportPkcs8(prv)) == Some(prv))
  }

  /** `pub` and `prv` are the two halves of one generated key pair: whatever
      `pub` encrypts, `prv` decrypts back. */
  ghost predicate RsaKeyPair<Pub, Prv>(a: RsaOaep<Pub, Prv>, pub: Pub, prv: Prv) {
    forall m :: a.encrypt(pub, m).Some? ==> a.decrypt(prv, a.encrypt(pub, m).value) == Some(m)
  }

  // ---------------------------------------------------------------------------
  // Text decoding

  function StripBom(s: string): (r: string) {
    if |s| > 0 && s[0] == Bom then s[1..] else s
  }

  /** `new TextDecoder().decode(bytes)`, with the decoder's `ignoreBOM` option:
      unless it is set, a leading byte order mark is consumed, not returned.
      The program always uses the default, `false`. */
  function TextDecode(c: Utf8Codec, bytes: Bytes, ignoreBom: bool): (s: string) {
    if ignoreBom then c.decode(bytes) else StripBom(c.decode(bytes))
  }

  // ---------------------------------------------------------------------------
  // RSA key transport and RSA encryption

  /** The text form of a public key carries exactly its SPKI bytes. */
  function ExportPubKey<K, Pub, Prv>(p: Primitives<K, Pub, Prv>, key: Pub): (s: string)
    ensures Base64RoundTrips(p.base64) ==> p.base64.fromBase64(s) == p.rsa.exportSpki(key)
  {
    p.base64.toBase64(p.rsa.exportSpki(key))
  }

  /** The text form of a private key carries exactly its PKCS#8 bytes. */
  function ExportPrvKey<K, Pub, Prv>(p: Primitives<K, Pub, Prv>, key: Prv): (s: string)
    ensures Base64RoundTrips(p.base64) ==> p.base64.fromBase64(s) == p.rsa.exportPkcs8(key)
  {
    p.base64.toBase64(p.rsa.exportPkcs8(key))
  }

  /** Importing the text form of an exported public key gives back that key. */
  function ImportPubKey<K, Pub(!new), Prv(!new)>(p: Primitives<K, Pub, Prv>, strKey: string): (r: Option<Pub>)
    ensures Base64RoundTrips(p.base64) && RsaKeysRoundTrip(p.rsa) ==>
              forall key :: ExportPubKey(p, key) == strKey ==> r == Some(key)
  {
    p.rsa.importSpki(p.base64.fromBase64(strKey))
  }

  /** Importing the text form of an exported private key gives back that key. */
  function ImportPrvKey<K, Pub(!new), Prv(!new)>(p: Primitives<K, Pub, Prv>, strKey: string): (r: Option<Prv>)
    ensures Base64RoundTrips(p.base64) && RsaKeysRoundTrip(p.rsa) ==>
              forall key :: ExportPrvKey(p, key) == strKey ==> r == Some(key)
  {
    p.rsa.importPkcs8(p.base64.fromBase64(strKey))
  }

  /** Import the public key from its text form, encrypt the UTF-8 bytes of the
      text, return the ciphertext as base64. */
  function RsaEncrypt<K, Pub(!new), Prv(!new)>(p: Primitives<K, Pub, Prv>, plainText: string, strPublicKey: string): (r: Option<string>)
    ensures r.None? <==>
              || ImportPubKey(p, strPublicKey).None?
              || p.rsa.encrypt(ImportPubKey(p, strPublicKey).value, p.utf8.encode(plainText)).None?
    ensures r.Some? && Base64RoundTrips(p.base64) ==>
              && ImportPubKey(p, strPublicKey).Some?
              && p.rsa.encrypt(ImportPubKey(p, strPublicKey).value, p.utf8.encode(plainText))
                 == Some(p.base64.fromBase64(r.value))
  {
    match ImportPubKey(p, strPublicKey)
    case None => None
    case Some(pub) =>
      match p.rsa.encrypt(pub, p.utf8.encode(plainText))
      case None => None
      case Some(c) => Some(p.base64.toBase64(c))
  }

  /** Decode the base64 ciphertext, decrypt it, read the bytes back as text.
      `ignoreBom` is the text decoder's option; the program leaves it `false`. */
  function RsaDecrypt<K, Pub, Prv>(p: Primitives<K, Pub, Prv>, data: string, privateKey: Prv, ignoreBom: bool): (r: Option<string>)
    ensures r.None? <==> p.rsa.decrypt(privateKey, p.base64.fromBase64(data)).None?
  {
    match p.rsa.decrypt(privateKey, p.base64.fromBase64(data))
    case None => None
    case Some(d) => Some(TextDecode(p.utf8, d, ignoreBom))
  }

  /** The program's RSA round trip: the text comes back, except that a
      leading byte order mark is lost. */
  lemma RsaRoundTrip<K, Pub(!new), Prv(!new)>(p: Primitives<K, Pub, Prv>, pub: Pub, prv: Prv, m: string)
    requires Base64RoundTrips(p.base64) && Utf8RoundTrips(p.utf8)
    requires RsaKeysRoundTrip(p.rsa) && RsaKeyPair(p.rsa, pub, prv)
    ensures RsaEncrypt(p, m, ExportPubKey(p, pub)).Some? ==>
              RsaDecrypt(p, RsaEncrypt(p, m, ExportPubKey(p, pub)).value, prv, false) == Some(StripBom(m))
    ensures RsaEncrypt(p, m, ExportPubKey(p, pub)).Some? && (m == [] || m[0] != Bom) ==>
              RsaDecrypt(p, RsaEncrypt(p, m, ExportPubKey(p, pub)).value, prv, false) == Some(m)
  {
  }

  /** As written, a text that starts with a byte order mark does not survive
      `rsaEncrypt` followed by `rsaDecrypt`. */
  lemma RsaDecryptDropsLeadingBom<K, Pub(!new), Prv(!new)>(p: Primitives<K, Pub, Prv>, pub: Pub, prv: Prv, text: string)
    requires Base64RoundTrips(p.base64) && Utf8RoundTrips(p.utf8)
    requires RsaKeysRoundTrip(p.rsa) && RsaKeyPair(p.rsa, pub, prv)
    requires RsaEncrypt(p, [Bom] + text, ExportPubKey(p, pub)).Some?
    ensures RsaDecrypt(p, RsaEncrypt(p, [Bom] + text, ExportPubKey(p, pub)).value, prv, false) == Some(text)
    ensures RsaDecrypt(p, RsaEncrypt(p, [Bom] + text, ExportPubKey(p, pub)).value, prv, false) != Some([Bom] + text)
  {
    RsaRoundTrip(p, pub, prv, [Bom] + text);
    assert ([Bom] + text)[1..] == text;
  }

  /** With a decoder that keeps the byte order mark, every text survives the round trip. */
  lemma RsaRoundTripIgnoringBom<K, Pub(!new), Prv(!new)>(p: Primitives<K, Pub, Prv>, pub: Pub, prv: Prv, m: string)
    requires Base64RoundTrips(p.base64) && Utf8RoundTrips(p.utf8)
    requires RsaKeysRoundTrip(p.rsa) && RsaKeyPair(p.rsa, pub, prv)
    ensures RsaEncrypt(p, m, ExportPubKey(p, pub)).Some? ==>
              RsaDecrypt(p, RsaEncrypt(p, m, ExportPubKey(p, pub)).value, prv, true) == Some(m)
  {
  }

  /** With the standard base64 alphabet and padding, an exported 2048-bit RSA
      public key (a 294-byte SPKI buffer) passes the registry's key-format check. */
  lemma ExportedPubKeyPassesKeyFormat<K, Pub, Prv>(p: Primitives<K, Pub, Prv>, pub: Pub)
    requires forall b :: p.base64.toBase64(b) == Base64.Encode(b)
    requires |p.rsa.exportSpki(pub)| == 294
    ensures Registry.ValidKey(ExportPubKey(p, pub))
  {
  }

  // ---------------------------------------------------------------------------
  // Symmetric ciphertext framing

  /** A symmetric ciphertext taken apart: the IV and the AES-CBC output. */
  datatype Frame = Frame(iv: Bytes, data: Bytes)

  function Min(a: nat, b: nat): (m: nat) {
    if a <= b then a else b
  }

  /** `Uint8Array.prototype.slice(begin, end)` for non-negative arguments: both
      ends are clamped to the length, and an empty range gives an empty copy. */
  function Slice(s: Bytes, begin: nat, end: nat): (r: Bytes) {
    var hi := Min(end, |s|);
    var lo := Min(begin, hi);
    s[lo..hi]
  }

  /** The IV followed by the ciphertext, in one buffer. */
  function Combine(iv: Bytes, encrypted: Bytes): (r: Bytes)
    ensures |r| == |iv| + |encrypted|
    ensures r[..|iv|] == iv && r[|iv|..] == encrypted
  {
    iv + encrypted
  }

  /** The allocation and the two `set` calls that build the combined buffer. */
  method CombineBuffers(iv: Bytes, encrypted: Bytes) returns (combined: Bytes)
    ensures combined == Combine(iv, encrypted)
  {
    var a := new bv8[|iv| + |encrypted|];
    var i := 0;
    while i < |iv|
      invariant 0 <= i <= |iv|
      invariant forall j :: 0 <= j < i ==> a[j] == iv[j]
    {
      a[i] := iv[i];
      i := i + 1;
    }
    var k := 0;
    while k < |encrypted|
      invariant 0 <= k <= |encrypted|
      invariant forall j :: 0 <= j < |iv| ==> a[j] == iv[j]
      invariant forall j :: 0 <= j < k ==> a[|iv| + j] == encrypted[j]
    {
      a[|iv| + k] := encrypted[k];
      k := k + 1;
    }
    combined := a[..];
    assert combined == iv + encrypted;
  }

  /** `slice(0, 16)` and `slice(16)`: the first sixteen bytes as IV, the rest as data. */
  function Split(combined: Bytes): (r: Frame)
    ensures r.iv + r.data == combined
    ensures |combined| >= IvLength ==> |r.iv| == IvLength
    ensures |combined| < IvLength ==> r.iv == combined && r.data == []
  {
    Frame(Slice(combined, 0, IvLength), Slice(combined, IvLength, |combined|))
  }

  /** Splitting a combined buffer gives back the IV and the ciphertext. */
  lemma SplitCombine(iv: Bytes, encrypted: Bytes)
    requires |iv| == IvLength
    ensures Split(Combine(iv, encrypted)) == Frame(iv, encrypted)
  {
  }

  // ---------------------------------------------------------------------------
  // Symmetric encryption

  /** The text form of a symmetric key carries exactly its raw bytes. */
  function ExportSymKey<K, Pub, Prv>(p: Primitives<K, Pub, Prv>, key: K): (s: string)
    ensures Base64RoundTrips(p.base64) ==> p.base64.fromBase64(s) == p.aes.exportRaw(key)
  {
    p.base64.toBase64(p.aes.exportRaw(key))
  }

  /** Importing the text form of an exported symmetric key gives back that key. */
  function ImportSymKey<K(!new), Pub, Prv>(p: Primitives<K, Pub, Prv>, strKey: string): (r: Option<K>)
    ensures Base64RoundTrips(p.base64) && AesKeysRoundTrip(p.aes) ==>
              forall key :: ExportSymKey(p, key) == strKey ==> r == Some(key)
  {
    p.aes.importRaw(p.base64.fromBase64(strKey))
  }

  /** `symEncrypt` with its random IV passed in: encrypt the UTF-8 bytes of the
      text under the IV, prefix the IV, encode the whole as base64. */
  function SymEncrypt<K, Pub, Prv>(p: Primitives<K, Pub, Prv>, key: K, data: string, iv: Bytes): (r: string)
    requires |iv| == IvLength
    ensures Base64RoundTrips(p.base64) ==>
              Split(p.base64.fromBase64(r)) == Frame(iv, p.aes.encrypt(key, iv, p.utf8.encode(data)))
  {
    var encrypted := p.aes.encrypt(key, iv, p.utf8.encode(data));
    var combined := Combine(iv, encrypted);
    SplitCombine(iv, encrypted);
    p.base64.toBase64(combined)
  }

  /** `symDecrypt`: import the raw key from its text, decode the ciphertext,
      split off the IV, decrypt the rest, read the bytes back as text.
      `ignoreBom` is the text decoder's option; the program leaves it `false`. */
  function SymDecrypt<K(!new), Pub, Prv>(p: Primitives<K, Pub, Prv>, strKey: string, encryptedData: string, ignoreBom: bool): (r: Option<string>)
    ensures ImportSymKey(p, strKey).None? ==> r.None?
    ensures ImportSymKey(p, strKey).Some? ==>
              var frame := Split(p.base64.fromBase64(encryptedData));
              (r.None? <==> p.aes.decrypt(ImportSymKey(p, strKey).value, frame.iv, frame.data).None?)
    ensures |p.base64.fromBase64(encryptedData)| < IvLength && ImportSymKey(p, strKey).Some? ==>
              (r.None? <==> p.aes.decrypt(ImportSymKey(p, strKey).value, p.base64.fromBase64(encryptedData), []).None?)
  {
    match ImportSymKey(p, strKey)
    case None => None
    case Some(key) =>
      var frame := Split(p.base64.fromBase64(encryptedData));
      match p.aes.decrypt(key, frame.iv, frame.data)
      case None => None
      case Some(d) => Some(TextDecode(p.utf8, d, ignoreBom))
  }

  /** The program's symmetric round trip: decrypting with the exported key
      recovers the encrypted text, except that a leading byte order mark is lost. */
  lemma SymRoundTrip<K(!new), Pub, Prv>(p: Primitives<K, Pub, Prv>, key: K, data: string, iv: Bytes)
    requires Base64RoundTrips(p.base64) && Utf8RoundTrips(p.utf8)
    requires AesCbcInverts(p.aes) && AesKeysRoundTrip(p.aes)
    requires |iv| == IvLength
    ensures SymDecrypt(p, ExportSymKey(p, key), SymEncrypt(p, key, data, iv), false) == Some(StripBom(data))
    ensures data == [] || data[0] != Bom ==>
              SymDecrypt(p, ExportSymKey(p, key), SymEncrypt(p, key, data, iv), false) == Some(data)
  {
  }

  /** As written, a text that starts with a byte order mark does not survive
      `symEncrypt` followed by `symDecrypt`. */
  lemma SymDecryptDropsLeadingBom<K(!new), Pub, Prv>(p: Primitives<K, Pub, Prv>, key: K, text: string, iv: Bytes)
    requires Base64RoundTrips(p.base64) && Utf8RoundTrips(p.utf8)
    requires AesCbcInverts(p.aes) && AesKeysRoundTrip(p.aes)
    requires |iv| == IvLength
    ensures SymDecrypt(p, ExportSymKey(p, key), SymEncrypt(p, key, [Bom] + text, iv), false) == Some(text)
    ensures SymDecrypt(p, ExportSymKey(p, key), SymEncrypt(p, key, [Bom] + text, iv), false) != Some([Bom] + text)
  {
    SymRoundTrip(p, key, [Bom] + text, iv);
    assert ([Bom] + text)[1..] == text;
  }

  /** With a decoder that keeps the byte order mark, every text survives the round trip. */
  lemma SymRoundTripIgnoringBom<K(!new), Pub, Prv>(p: Primitives<K, Pub, Prv>, key: K, data: string, iv: Bytes)
    requires Base64RoundTrips(p.base64) && Utf8RoundTrips(p.utf8)
    requires AesCbcInverts(p.aes) && AesKeysRoundTrip(p.aes)
    requires |iv| == IvLength
    ensures SymDecrypt(p, ExportSymKey(p, key), SymEncrypt(p, key, data, iv), true) == Some(data)
  {
  }

  /** Two encryptions under different IVs never yield the same text, whatever
      the key and plaintexts: the IV is readable from the ciphertext. */
  lemma DistinctIvsGiveDistinctCiphertexts<K, Pub, Prv>(
    p: Primitives<K, Pub, Prv>, key1: K, data1: string, iv1: Bytes, key2: K, data2: string, iv2: Bytes)
    requires Base64RoundTrips(p.base64)
    requires |iv1| == IvLength && |iv2| == IvLength && iv1 != iv2
    ensures SymEncrypt(p, key1, data1, iv1) != SymEncrypt(p, key2, data2, iv2)
  {
  }
}
