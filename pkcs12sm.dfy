/** The read path of the SM2 private-key container (a PKCS#12-like layout, not RFC 7292):
    the outer structure is decoded, the private scalar is decrypted with SM4-CBC under key
    material derived from the password, and the scalar is bound to the public key of the
    certificate carried next to it.

    The libraries the reader calls (SM3, SM4-CBC, base64, DER unmarshalling, X.509 parsing)
    are not modelled; they are the fields of a `Primitives` value passed to every operation.
    `log.Fatal` and the panic of a failed type assertion end the process in the source;
    here both are the outcome `Aborted`. */
module Pkcs12Sm {
  import opened Wrappers
  import opened BigEndian
  import opened Sm2Kdf

  type ObjectIdentifier = seq<nat>

  /** An undecoded ASN.1 element as `asn1.RawValue` keeps it; `bytes` is its content. */
  datatype RawValue = RawValue(tagClass: int, tag: int, isCompound: bool, bytes: seq<byte>, fullBytes: seq<byte>)

  datatype PrivateKeyContent = PrivateKeyContent(oid1: ObjectIdentifier, oid2: ObjectIdentifier, content: RawValue)

  datatype PublicKeyContent = PublicKeyContent(oid: ObjectIdentifier, content: RawValue)

  /** The outer structure: a version, the encrypted private key, the certificate. */
  datatype SmPdu = SmPdu(version: int, privContent: PrivateKeyContent, pubContent: PublicKeyContent)

  /** An SM2 public key: a point of the SM2 curve (curve arithmetic is not modelled). */
  datatype PublicKey = PublicKey(x: int, y: int)

  /** The dynamic type of a certificate's public key: an SM2 key or some other kind. */
  datatype CertPublicKey = Sm2Key(key: PublicKey) | OtherKey

  datatype Certificate = Certificate(raw: seq<byte>, publicKey: CertPublicKey)

  /** An SM2 private key: its public key and the scalar D. */
  datatype PrivateKey = PrivateKey(publicKey: PublicKey, d: nat)

  /** The external libraries, as total functions of their inputs.
      `sm4Cbc(iv, key, in, flag)` is `sm4.Init(iv, key).Sm4Cbc(in, flag)`; the reader passes
      `false`, whose meaning is the cipher library's and is not modelled.
      `base64Decode(src)` is what `base64.StdEncoding.Decode` writes into its buffer.
      `unmarshal(b)` is `asn1.Unmarshal` into an `SmPdu`, with the bytes left over. */
  datatype Primitives = Primitives(
    sm3: HashFunction,
    sm4Cbc: (seq<byte>, seq<byte>, seq<byte>, bool) -> Result<seq<byte>>,
    base64Decode: seq<byte> -> seq<byte>,
    unmarshal: seq<byte> -> Result<(SmPdu, seq<byte>)>,
    parseCertificate: seq<byte> -> Result<Certificate>)

  /** Why the source would end the process instead of returning. */
  datatype AbortReason =
    | CipherFailed(error: string)           // log.Fatal after Sm4Cbc
    | CertificateUnparsable(error: string)  // log.Fatal after ParseCertificate
    | PublicKeyNotSm2                       // the type assertion to *sm2.PublicKey panics

  datatype Outcome<+T> = Completed(value: T) | Aborted(reason: AbortReason)

  datatype DecodeError =
    | UnmarshalError(message: string)
    | TrailingData
    | EncryptedKeyLength(length: nat)   // only the checked decoder reports this

  datatype DecodeResult = Decoded(key: PrivateKey, cert: Certificate) | DecodeFailed(error: DecodeError)

  /** The window of encrypted-key lengths DecryptSm2Key accepts. */
  const MinEncryptedLength: nat := 32
  const MaxEncryptedLength: nat := 64

  /** The length of the CBC initialisation vector taken from the KDF digest. */
  const IvSize: nat := 16

  predicate InWindow(encryptedData: seq<byte>) {
    MinEncryptedLength <= |encryptedData| <= MaxEncryptedLength
  }

  /** KDF: one block of the SM2 counter-mode KDF, so 32 bytes of key material. */
  function Kdf(hash: HashFunction, z: seq<byte>): (h: Digest)
    ensures h == StandardKdf(hash, z, DigestSize)
  {
    FirstBlock(hash, z, DigestSize);
    hash(z + FirstCounter)
  }

  /** The KDF digest cut into the IV (`h[:16]`) and the SM4 key (`h[16:]`). */
  function SplitKeyMaterial(h: Digest): (ivKey: (seq<byte>, seq<byte>))
    ensures |ivKey.0| == IvSize && |ivKey.1| == DigestSize - IvSize
    ensures ivKey.0 + ivKey.1 == h
  {
    (h[..IvSize], h[IvSize..])
  }

  /** The buffer `make([]byte, n)` after `base64.StdEncoding.Decode(buffer, src)`: the decoded
      bytes at the front, zeros after them. */
  function Base64DecodeInto(p: Primitives, src: seq<byte>): (buffer: seq<byte>)
    ensures |buffer| == |src|
  {
    var decoded := p.base64Decode(src);
    var n := if |decoded| <= |src| then |decoded| else |src|;
    decoded[..n] + seq(|src| - n, _ => 0)
  }

  /** DecryptSm2Key: `None` (Go's nil) outside the 32..64 byte window; otherwise the SM4-CBC
      decryption of the raw input under the password's key material, or an abort when the
      cipher reports an error. */
  function DecryptSm2Key(p: Primitives, password: seq<byte>, encryptedData: seq<byte>): (r: Outcome<Option<seq<byte>>>)
    ensures r == Completed(None) <==> !InWindow(encryptedData)
    ensures r.Aborted? ==> InWindow(encryptedData) && r.reason.CipherFailed?
    ensures InWindow(encryptedData) ==>
      var (iv, key) := SplitKeyMaterial(Kdf(p.sm3, password));
      iv + key == StandardKdf(p.sm3, password, DigestSize) &&
      match p.sm4Cbc(iv, key, encryptedData, false)
      case Ok(out) => r == Completed(Some(out))
      case Err(e) => r == Aborted(CipherFailed(e))
  {
    if InWindow(encryptedData) then
      var decoded :=
        if |encryptedData| != 32 && |encryptedData| != 48 then Base64DecodeInto(p, encryptedData)
        else seq(|encryptedData|, _ => 0);
      // the decoded buffer is replaced by the raw input before it is used
      var encoding := encryptedData;
      var (iv, key) := SplitKeyMaterial(Kdf(p.sm3, password));
      match p.sm4Cbc(iv, key, encoding, false)
      case Ok(out) => Completed(Some(out))
      case Err(e) => Aborted(CipherFailed(e))
    else
      Completed(None)
  }

  /** Decode: unmarshal the container, reject trailing bytes, decrypt the private key,
      parse the certificate and pair its SM2 public key with the decrypted scalar. */
  function Decode(p: Primitives, smData: seq<byte>, password: seq<byte>): (r: Outcome<DecodeResult>)
    ensures r.Completed? && r.value.Decoded? ==> r.value.cert.publicKey == Sm2Key(r.value.key.publicKey)
    ensures r.Completed? && r.value.Decoded? ==> p.unmarshal(smData).Ok? && p.unmarshal(smData).value.1 == []
  {
    match p.unmarshal(smData)
    case Err(e) => Completed(DecodeFailed(UnmarshalError(e)))
    case Ok((sm, trailing)) =>
      if |trailing| != 0 then Completed(DecodeFailed(TrailingData))
      else
        match DecryptSm2Key(p, password, sm.privContent.content.bytes)
        case Aborted(reason) => Aborted(reason)
        case Completed(dBytes) =>
          match p.parseCertificate(sm.pubContent.content.bytes)
          case Err(e) => Aborted(CertificateUnparsable(e))
          case Ok(cer) =>
            match cer.publicKey
            case OtherKey => Aborted(PublicKeyNotSm2)
            case Sm2Key(pub) => Completed(Decoded(PrivateKey(pub, BeValue(dBytes.GetOr([]))), cer))
  }

  /** Decode with the length window enforced as an error: an encrypted key outside 32..64
      bytes is reported as `EncryptedKeyLength` instead of becoming the scalar 0. Every
      other container is handled exactly as Decode handles it. */
  function DecodeChecked(p: Primitives, smData: seq<byte>, password: seq<byte>): (r: Outcome<DecodeResult>)
    ensures r.Completed? && r.value.Decoded? ==> r.value.cert.publicKey == Sm2Key(r.value.key.publicKey)
  {
    match p.unmarshal(smData)
    case Ok((sm, trailing)) =>
      if trailing == [] && !InWindow(sm.privContent.content.bytes) then
        Completed(DecodeFailed(EncryptedKeyLength(|sm.privContent.content.bytes|)))
      else Decode(p, smData, password)
    case Err(_) => Decode(p, smData, password)
  }
}
