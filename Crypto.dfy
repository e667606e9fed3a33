/** Encryption of voice attachments: AES-GCM with a fresh 96-bit IV, and the
    ciphertext and IV carried as base 64 text so that they can sit in a JSON
    record.

    The cipher is a parameter: a `Cipher` holds an encryption function and a
    decryption function that may fail (GCM tag mismatch), and `Sound` is the
    round-trip property AES-GCM guarantees for a key and IV.  Randomness is a
    parameter too: `random(i)` is the i-th byte the platform's random source
    delivers.  The promise-based API is modelled as plain sequential calls. */
module Crypto {
  import opened Wrappers
  import opened Dom
  import opened Base64

  /** The IV length of `encryptData`: 12 bytes, 96 bits. */
  const IvLength: nat := 12

  /** The label `decryptToBlob` uses when its caller gives no MIME type. */
  const DefaultMimeType: string := "audio/webm"

  /** An AES-256 key; its material is never inspected by this code. */
  datatype Key = Key(material: seq<byte>)

  /** The authenticated cipher: `enc(key, iv, plaintext)` and `dec(key, iv, ciphertext)`. */
  datatype Cipher = Cipher(
    enc: (Key, seq<byte>, seq<byte>) -> seq<byte>,
    dec: (Key, seq<byte>, seq<byte>) -> Result<seq<byte>, DomException>)

  /** Decryption with the key and IV used for encryption gives the plaintext back. */
  ghost predicate Sound(c: Cipher) {
    forall key, iv, p :: c.dec(key, iv, c.enc(key, iv, p)) == Success(p)
  }

  /** The text-safe result of `encryptBlob`. */
  datatype Envelope = Envelope(encryptedData: string, iv: string)

  /** A Blob: its bytes and its `type` label. */
  datatype Blob = Blob(data: seq<byte>, mimeType: string)

  // ---------------------------------------------------------------------------
  // Specification of the envelope
  // ---------------------------------------------------------------------------

  /** The envelope that encrypting `data` under `key` with IV `iv` produces. */
  function Seal(c: Cipher, data: seq<byte>, key: Key, iv: seq<byte>): Envelope {
    Envelope(Encode(c.enc(key, iv, data)), Encode(iv))
  }

  /** The IV built from the first `IvLength` random bytes. */
  function RandomIv(random: nat -> byte): (iv: seq<byte>)
    ensures |iv| == IvLength && forall i :: 0 <= i < IvLength ==> iv[i] == random(i)
  {
    seq(IvLength, i requires 0 <= i < IvLength => random(i))
  }

  /** `decryptData`: the platform's decryption, whose failure reaches the caller. */
  function DecryptData(c: Cipher, encrypted: seq<byte>, key: Key, iv: seq<byte>): Result<seq<byte>, DomException> {
    c.dec(key, iv, encrypted)
  }

  /** ASCII lower case of one character. */
  function AsciiLower(ch: char): (r: char)
    ensures 'A' <= ch <= 'Z' ==> r as int == ch as int + 32
    ensures !('A' <= ch <= 'Z') ==> r == ch
  {
    if 'A' <= ch <= 'Z' then (ch as int + 32) as char else ch
  }

  /** The `type` a Blob constructor records: the empty string when a character
      lies outside U+0020..U+007E, the ASCII lower case of the text otherwise. */
  function BlobType(t: string): (r: string)
    ensures (exists i :: 0 <= i < |t| && !(' ' <= t[i] <= '~')) ==> r == ""
    ensures (forall i :: 0 <= i < |t| ==> ' ' <= t[i] <= '~') ==>
              |r| == |t| && forall i :: 0 <= i < |t| ==> r[i] == AsciiLower(t[i])
  {
    if exists i :: 0 <= i < |t| && !(' ' <= t[i] <= '~') then ""
    else seq(|t|, i requires 0 <= i < |t| => AsciiLower(t[i]))
  }

  /** What `decryptToBlob` returns: the first failure among the two base 64
      decodes and the decryption, or the decrypted bytes labelled with the MIME
      type (`audio/webm` when none is given). */
  function Open(c: Cipher, encryptedData: string, ivString: string, key: Key, mimeType: Option<string>): Result<Blob, DomException> {
    var encrypted :- Decode(encryptedData);
    var iv :- Decode(ivString);
    var decrypted :- DecryptData(c, encrypted, key, iv);
    Success(Blob(decrypted, BlobType(mimeType.GetOr(DefaultMimeType))))
  }

  // ---------------------------------------------------------------------------
  // The operations
  // ---------------------------------------------------------------------------

  /** The loop of `arrayBufferToBase64`: one character per byte, with the byte as its code. */
  method BinaryString(bytes: seq<byte>) returns (binary: string)
    ensures |binary| == |bytes|
    ensures forall i :: 0 <= i < |bytes| ==> binary[i] as int == bytes[i] as int
  {
    binary := "";
    var i := 0;
    while i < |bytes|
      invariant 0 <= i <= |bytes|
      invariant |binary| == i
      invariant forall j :: 0 <= j < i ==> binary[j] as int == bytes[j] as int
    {
      binary := binary + [ByteChar(bytes[i])];
      i := i + 1;
    }
  }

  /** `arrayBufferToBase64`: the base 64 text of the bytes; `btoa` cannot throw
      here because every character the loop builds has a code below 256. */
  method ArrayBufferToBase64(buffer: seq<byte>) returns (s: string)
    ensures s == Encode(buffer)
    ensures |s| == 4 * ((|buffer| + 2) / 3)
  {
    var binary := BinaryString(buffer);
    var encoded := Btoa(binary);
    assert StringBytes(binary) == buffer;
    s := encoded.value;
  }

  /** `Uint8Array` element assignment: the value modulo 256. */
  function ToUint8(n: nat): byte {
    n % 256
  }

  /** The loop of `base64ToArrayBuffer`: a fresh array of `binary.length` bytes
      filled in place with the character codes. */
  method CharCodes(binary: string) returns (bytes: seq<byte>)
    ensures |bytes| == |binary|
    ensures forall i :: 0 <= i < |binary| ==> bytes[i] == ToUint8(binary[i] as int)
  {
    var a := new byte[|binary|];
    var i := 0;
    while i < |binary|
      invariant 0 <= i <= |binary|
      invariant forall j :: 0 <= j < i ==> a[j] == ToUint8(binary[j] as int)
    {
      a[i] := ToUint8(binary[i] as int);
      i := i + 1;
    }
    bytes := a[..];
  }

  /** `base64ToArrayBuffer`: the decoded bytes, or the `InvalidCharacterError`
      that `atob` throws, which is not caught. */
  method Base64ToArrayBuffer(base64: string) returns (r: Result<seq<byte>, DomException>)
    ensures r == Decode(base64)
  {
    var binary :- Atob(base64);
    var bytes := CharCodes(binary);
    assert bytes == Decode(base64).value;
    r := Success(bytes);
  }

  /** `encryptData`: a 12-byte IV filled from the random source, and the
      ciphertext under that IV. */
  method EncryptData(c: Cipher, data: seq<byte>, key: Key, random: nat -> byte)
    returns (encrypted: seq<byte>, iv: seq<byte>)
    ensures |iv| == IvLength
    ensures forall i :: 0 <= i < IvLength ==> iv[i] == random(i)
    ensures encrypted == c.enc(key, iv, data)
  {
    var ivBuffer := new byte[IvLength](i => random(i));
    iv := ivBuffer[..];
    encrypted := c.enc(key, iv, data);
  }

  /** `encryptBlob`: the envelope of the Blob's bytes under a fresh random IV;
      the IV text is always 16 characters of the alphabet, without padding. */
  method EncryptBlob(c: Cipher, blob: Blob, key: Key, random: nat -> byte) returns (e: Envelope)
    ensures e == Seal(c, blob.data, key, RandomIv(random))
    ensures |e.iv| == 16 && AllAlphabet(e.iv)
  {
    var encrypted, iv := EncryptData(c, blob.data, key, random);
    assert iv == RandomIv(random);
    var encryptedData := ArrayBufferToBase64(encrypted);
    var ivString := ArrayBufferToBase64(iv);
    e := Envelope(encryptedData, ivString);
  }

  /** `decryptToBlob`: decode both texts, decrypt, label; the first failure is
      passed to the caller unchanged. */
  method DecryptToBlob(c: Cipher, encryptedData: string, ivString: string, key: Key, mimeType: Option<string>)
    returns (r: Result<Blob, DomException>)
    ensures r == Open(c, encryptedData, ivString, key, mimeType)
  {
    var encrypted :- Base64ToArrayBuffer(encryptedData);
    var iv :- Base64ToArrayBuffer(ivString);
    var decrypted :- DecryptData(c, encrypted, key, iv);
    r := Success(Blob(decrypted, BlobType(mimeType.GetOr(DefaultMimeType))));
  }

  // ---------------------------------------------------------------------------
  // Properties
  // ---------------------------------------------------------------------------

  /** `decryptData` passes the platform's result through unchanged, so for a
      sound cipher it inverts the encryption `encryptData` performs. */
  lemma DecryptEncrypt(c: Cipher, data: seq<byte>, key: Key, iv: seq<byte>)
    requires Sound(c)
    ensures DecryptData(c, c.enc(key, iv, data), key, iv) == Success(data)
  {
  }

  /** A text of lower-case printable ASCII is its own Blob type. */
  lemma BlobTypeLower(t: string)
    requires forall i :: 0 <= i < |t| ==> ' ' <= t[i] <= '~' && !('A' <= t[i] <= 'Z')
    ensures BlobType(t) == t
  {
  }

  /** The default label survives the Blob constructor's normalisation. */
  lemma DefaultMimeTypeKept()
    ensures BlobType(DefaultMimeType) == DefaultMimeType
  {
    BlobTypeLower(DefaultMimeType);
  }

  /** The envelope round trip: opening the envelope of `data` with the same key
      and no MIME type gives back the bytes, labelled `audio/webm`. */
  lemma OpenSeal(c: Cipher, data: seq<byte>, key: Key, iv: seq<byte>)
    requires Sound(c)
    ensures Open(c, Seal(c, data, key, iv).encryptedData, Seal(c, data, key, iv).iv, key, None)
         == Success(Blob(data, DefaultMimeType))
  {
    DecodeEncode(c.enc(key, iv, data));
    DecodeEncode(iv);
    DecryptEncrypt(c, data, key, iv);
    DefaultMimeTypeKept();
  }

  /** A successful open carries the caller's MIME type as the Blob records it,
      and `audio/webm` when none is given. */
  lemma OpenMimeType(c: Cipher, encryptedData: string, ivString: string, key: Key, mimeType: Option<string>)
    ensures Open(c, encryptedData, ivString, key, mimeType).Success? ==>
      Open(c, encryptedData, ivString, key, mimeType).value.mimeType
        == (if mimeType.Some? then BlobType(mimeType.value) else DefaultMimeType)
  {
    DefaultMimeTypeKept();
  }

  /** Nothing on the decrypt path is caught: opening succeeds exactly when both
      texts decode and the decryption verifies, and its bytes are then the
      decrypted bytes; otherwise the first failure is the result. */
  lemma OpenFailure(c: Cipher, encryptedData: string, ivString: string, key: Key, mimeType: Option<string>)
    ensures var r := Open(c, encryptedData, ivString, key, mimeType);
      && (Decode(encryptedData).Failure? ==> r == Failure(InvalidCharacterError))
      && (Decode(encryptedData).Success? && Decode(ivString).Failure? ==> r == Failure(InvalidCharacterError))
      && (Decode(encryptedData).Success? && Decode(ivString).Success? ==>
            var d := DecryptData(c, Decode(encryptedData).value, key, Decode(ivString).value);
            (d.Failure? ==> r == Failure(d.error)) && (d.Success? ==> r.Success? && r.value.data == d.value))
  {
  }

  /** A 12-byte IV encodes to 16 characters of the alphabet. */
  lemma IvText(iv: seq<byte>)
    requires |iv| == IvLength
    ensures |Encode(iv)| == 16 && AllAlphabet(Encode(iv))
  {
  }

  /** The IV text of every envelope made with a 12-byte IV is 16 alphabet
      characters, and different IVs give different IV texts. */
  lemma SealIv(c: Cipher, data: seq<byte>, key: Key, iv1: seq<byte>, iv2: seq<byte>)
    requires |iv1| == IvLength
    ensures |Seal(c, data, key, iv1).iv| == 16 && AllAlphabet(Seal(c, data, key, iv1).iv)
    ensures Seal(c, data, key, iv1).iv == Seal(c, data, key, iv2).iv <==> iv1 == iv2
  {
    IvText(iv1);
    EncodeInjective(iv1, iv2);
  }
}
