/** What the container reader guarantees, stated over the model in module Pkcs12Sm. */
module Pkcs12SmProperties {
  import opened Wrappers
  import opened BigEndian
  import opened Sm2Kdf
  import opened Pkcs12Sm

  // ---- KDF ----

  /** The reader's KDF hashes the seed followed by the counter bytes 0, 0, 0, 1, and that digest is
      the first block of the standard counter-mode KDF for any requested length: the
      source keeps the first iteration of the counter loop and drops the rest. */
  lemma KdfIsFirstCounterBlock(hash: HashFunction, z: seq<byte>, klen: nat)
    requires DigestSize <= klen <= (CounterLimit - 1) * DigestSize
    ensures Kdf(hash, z) == hash(z + FirstCounter)
    ensures Kdf(hash, z) == StandardKdf(hash, z, klen)[..DigestSize]
  {
    FirstBlock(hash, z, klen);
  }

  // ---- DecryptSm2Key ----

  /** Outside the 32..64 byte window the result is nil whatever the primitives and the
      password are: neither the KDF nor the cipher takes part. */
  lemma DecryptOutsideWindowUsesNoPrimitive(p: Primitives, q: Primitives, password: seq<byte>, password': seq<byte>, encryptedData: seq<byte>)
    requires |encryptedData| < MinEncryptedLength || |encryptedData| > MaxEncryptedLength
    ensures DecryptSm2Key(p, password, encryptedData) == Completed(None)
    ensures DecryptSm2Key(p, password, encryptedData) == DecryptSm2Key(q, password', encryptedData)
  {
  }

  /** The base64 branch has no effect: replacing the base64 decoder by any other function
      leaves the result unchanged, because its buffer is overwritten by the raw input. */
  lemma DecryptIgnoresBase64(p: Primitives, decoder: seq<byte> -> seq<byte>, password: seq<byte>, encryptedData: seq<byte>)
    ensures DecryptSm2Key(p.(base64Decode := decoder), password, encryptedData) == DecryptSm2Key(p, password, encryptedData)
  {
  }

  /** Inside the window the cipher is called once, on the raw input, with the flag false, an
      IV of 16 bytes and a 16-byte key that together are the KDF digest of the password; the
      call aborts exactly when the cipher reports an error. */
  lemma DecryptCallsCipherOnRawInput(p: Primitives, password: seq<byte>, encryptedData: seq<byte>)
    requires MinEncryptedLength <= |encryptedData| <= MaxEncryptedLength
    ensures var h := p.sm3(password + FirstCounter);
      var r := DecryptSm2Key(p, password, encryptedData);
      var c := p.sm4Cbc(h[..16], h[16..], encryptedData, false);
      && (r.Aborted? <==> c.Err?)
      && (c.Ok? ==> r == Completed(Some(c.value)))
      && (c.Err? ==> r == Aborted(CipherFailed(c.error)))
  {
  }

  // ---- Decode ----

  /** A container that does not unmarshal, or that leaves bytes after the outer structure,
      is refused with an error and no key or certificate. */
  lemma DecodeRejectsMalformed(p: Primitives, smData: seq<byte>, password: seq<byte>)
    requires p.unmarshal(smData).Err? || p.unmarshal(smData).value.1 != []
    ensures p.unmarshal(smData).Err? ==>
      Decode(p, smData, password) == Completed(DecodeFailed(UnmarshalError(p.unmarshal(smData).error)))
    ensures p.unmarshal(smData).Ok? ==> Decode(p, smData, password) == Completed(DecodeFailed(TrailingData))
  {
  }

  /** For a well-formed container, Decode returns a key exactly when decryption does not
      abort, the certificate parses and its key is an SM2 key; the key then holds the
      certificate's public key and the big-endian value of the decrypted bytes (0 for nil).
      A certificate key that is not an SM2 key aborts, and no well-formed container ends in
      an error return: every failure past the trailing check is an abort. */
  lemma DecodeSucceedsExactly(p: Primitives, smData: seq<byte>, password: seq<byte>, sm: SmPdu)
    requires p.unmarshal(smData) == Ok((sm, []))
    ensures var r := Decode(p, smData, password);
      var dec := DecryptSm2Key(p, password, sm.privContent.content.bytes);
      var cer := p.parseCertificate(sm.pubContent.content.bytes);
      && ((r.Completed? && r.value.Decoded?) <==> (dec.Completed? && cer.Ok? && cer.value.publicKey.Sm2Key?))
      && (r.Completed? && r.value.Decoded? ==>
            && r.value.cert == cer.value
            && r.value.key == PrivateKey(cer.value.publicKey.key, BeValue(dec.value.GetOr([]))))
      && (dec.Completed? && cer.Ok? && cer.value.publicKey.OtherKey? ==> r == Aborted(PublicKeyNotSm2))
      && (r.Completed? ==> r.value.Decoded?)
  {
  }

  /** The scalar loses nothing but leading zero bytes: re-encoding D at the width of the
      decrypted bytes gives those bytes back. */
  lemma DecodedScalarRecoversPlaintext(p: Primitives, smData: seq<byte>, password: seq<byte>, sm: SmPdu, plain: seq<byte>)
    requires p.unmarshal(smData) == Ok((sm, []))
    requires DecryptSm2Key(p, password, sm.privContent.content.bytes) == Completed(Some(plain))
    requires Decode(p, smData, password).Completed? && Decode(p, smData, password).value.Decoded?
    ensures BeBytes(Decode(p, smData, password).value.key.d, |plain|) == plain
  {
    BeBytesOfBeValue(plain);
  }

  /** A cipher failure ends the call before the certificate is looked at. */
  lemma DecodeDecryptAbortFirst(p: Primitives, smData: seq<byte>, password: seq<byte>, sm: SmPdu)
    requires p.unmarshal(smData) == Ok((sm, []))
    requires DecryptSm2Key(p, password, sm.privContent.content.bytes).Aborted?
    ensures Decode(p, smData, password) == Aborted(DecryptSm2Key(p, password, sm.privContent.content.bytes).reason)
  {
  }

  /** A certificate that does not parse aborts the call, and no key is returned. */
  lemma DecodeCertificateFailureAborts(p: Primitives, smData: seq<byte>, password: seq<byte>, sm: SmPdu)
    requires p.unmarshal(smData) == Ok((sm, []))
    requires DecryptSm2Key(p, password, sm.privContent.content.bytes).Completed?
    requires p.parseCertificate(sm.pubContent.content.bytes).Err?
    ensures Decode(p, smData, password) == Aborted(CertificateUnparsable(p.parseCertificate(sm.pubContent.content.bytes).error))
  {
  }

  /** Only the two content blobs matter: the version, the object identifiers and the other
      fields of the raw values are never checked. */
  lemma DecodeIgnoresVersionAndOids(p: Primitives, unmarshal': seq<byte> -> Result<(SmPdu, seq<byte>)>,
                                    smData: seq<byte>, password: seq<byte>, sm: SmPdu, sm': SmPdu, trailing: seq<byte>)
    requires p.unmarshal(smData) == Ok((sm, trailing))
    requires unmarshal'(smData) == Ok((sm', trailing))
    requires sm'.privContent.content.bytes == sm.privContent.content.bytes
    requires sm'.pubContent.content.bytes == sm.pubContent.content.bytes
    ensures Decode(p.(unmarshal := unmarshal'), smData, password) == Decode(p, smData, password)
  {
  }

  // ---- the length window (see the finding in README.md) ----

  /** As written: an encrypted key outside the window does not stop Decode. Given a
      certificate with an SM2 key, it returns a private key whose scalar D is 0 (an
      encrypted blob of 31 or 65 bytes is such an input). */
  lemma DecodeZeroScalarOutsideWindow(p: Primitives, smData: seq<byte>, password: seq<byte>, sm: SmPdu, cer: Certificate)
    requires p.unmarshal(smData) == Ok((sm, []))
    requires !InWindow(sm.privContent.content.bytes)
    requires p.parseCertificate(sm.pubContent.content.bytes) == Ok(cer) && cer.publicKey.Sm2Key?
    ensures Decode(p, smData, password) == Completed(Decoded(PrivateKey(cer.publicKey.key, 0), cer))
  {
  }

  /** Corrected: DecodeChecked returns a key only for an encrypted blob inside the window,
      whose decryption then produced bytes (`Some`, not `None`) that D encodes; out-of-window blobs
      are refused with their length; every other container gets Decode's result. */
  lemma DecodeCheckedScalar(p: Primitives, smData: seq<byte>, password: seq<byte>, sm: SmPdu)
    requires p.unmarshal(smData) == Ok((sm, []))
    ensures var r := DecodeChecked(p, smData, password);
      var blob := sm.privContent.content.bytes;
      && (!InWindow(blob) ==> r == Completed(DecodeFailed(EncryptedKeyLength(|blob|))))
      && (InWindow(blob) ==> r == Decode(p, smData, password))
      && (r.Completed? && r.value.Decoded? ==>
            var dec := DecryptSm2Key(p, password, blob);
            && InWindow(blob) && dec.Completed? && dec.value.Some?
            && r.value.key.d == BeValue(dec.value.value)
            && BeBytes(r.value.key.d, |dec.value.value|) == dec.value.value)
  {
    var blob := sm.privContent.content.bytes;
    var dec := DecryptSm2Key(p, password, blob);
    if InWindow(blob) && dec.Completed? && dec.value.Some? {
      BeBytesOfBeValue(dec.value.value);
    }
  }

  /** DecodeChecked differs from Decode only on well-formed containers whose encrypted key
      lies outside the window. */
  lemma DecodeCheckedAgreesElsewhere(p: Primitives, smData: seq<byte>, password: seq<byte>)
    requires p.unmarshal(smData).Err? || p.unmarshal(smData).value.1 != []
      || InWindow(p.unmarshal(smData).value.0.privContent.content.bytes)
    ensures DecodeChecked(p, smData, password) == Decode(p, smData, password)
  {
  }
}
