# SM2 private-key container reader — Dafny model

This project models the read path of `pkcs12/pkcs12sm.go`. The path reads a PKCS#12-like container
(not RFC 7292) that holds an SM4-CBC encrypted SM2 private scalar and a DER certificate:

- `KDF` derives 32 bytes of key material from a seed. It hashes the seed followed by the fixed
  big-endian counter 1 (the bytes 0, 0, 0, 1) with SM3. This is one block of the SM2
  counter-mode KDF of GM/T 0003.4-2012, section 5.4.3.
- `DecryptSm2Key` accepts an encrypted blob of 32 to 64 bytes and returns nil for any other
  length. Inside that window it does three things:
  - for lengths other than 32 and 48 it runs a base64 decode whose result is thrown away;
  - it splits the KDF digest of the password into a 16-byte IV and a 16-byte key;
  - it decrypts the raw blob with SM4-CBC, passing the flag `false`.
  A cipher error ends the process (`log.Fatal`).
- `Decode` works in this order:
  - it unmarshals the outer structure (version, private-key section, public-key section);
  - it refuses trailing bytes;
  - it decrypts the private blob;
  - it parses the certificate, and a failure here ends the process;
  - it asserts that the certificate's key is an SM2 key, and panics if not;
  - it returns the private key (certificate public key, D = big-endian value of the decrypted
    bytes) together with the certificate.

All three are pure functions in the model. The libraries they call are the fields of a
`Primitives` value passed in: SM3, SM4-CBC, base64 decoding, `asn1.Unmarshal` and
`x509.ParseCertificate`. The one assumption about them is that an SM3 digest is 32 bytes long;
the type `Sm2Kdf.Digest` states it. The source stops with `log.Fatal` twice (after the
cipher and after the certificate parser) and panics once (the failed type assertion). The model
gives all three the outcome `Aborted(reason)`. The two ordinary error returns are
`Completed(DecodeFailed(..))`.

The files:

- `wrappers.dfy`: `Option` and `Result`.
- `big_endian.dfy`: `SetBytes` as `BeValue`, and the fixed-width encoder `BeBytes` with the round
  trips in both directions.
- `sm2_kdf.dfy`: the reference counter-mode KDF of the standard.
- `pkcs12sm.dfy`: the container types and the three operations.
- `pkcs12sm_properties.dfy`: what the reader guarantees.

Three decisions follow the code where a reader might expect otherwise:

- A private blob of 31 or 65 bytes is not refused: the code returns a key whose scalar is 0
  (see Findings). `Pkcs12Sm.Decode` keeps this; `Pkcs12Sm.DecodeChecked` is the corrected form.
- Cipher and certificate failures are not error returns: the code stops there, so the model
  reports `Aborted` rather than a `DecodeFailed` error.
- The length window applies to the raw blob, and the raw bytes are what is decrypted: the
  base64 buffer of line 81 is overwritten at line 83 before any use.

## Model

| member | source | states |
|---|---|---|
| `BigEndian.BeValue` | pkcs12/pkcs12sm.go:56 | the value `SetBytes` gives a byte string is below 256^length (an empty or nil slice gives 0) |
| `BigEndian.BeBytes` | pkcs12/pkcs12sm.go:66 | the fixed-width big-endian encoding has exactly the requested number of bytes |
| `BigEndian.BeValueOfBeBytes` | pkcs12/pkcs12sm.go:56 | encoding a value that fits in `width` bytes and reading it back with `SetBytes` gives the value |
| `BigEndian.BeBytesOfBeValue` | pkcs12/pkcs12sm.go:56 | re-encoding a byte string's `SetBytes` value at the string's own length gives the string back |
| `BigEndian.BeValueConcat` | pkcs12/pkcs12sm.go:56 | the value of `a + b` is value(a) · 256^len(b) + value(b) |
| `BigEndian.LeadingZerosIgnored` | pkcs12/pkcs12sm.go:56 | leading zero bytes do not change the scalar |
| `Sm2Kdf.CounterBytes` | pkcs12/pkcs12sm.go:66 | the KDF counter is 4 bytes whose big-endian value is the counter |
| `Sm2Kdf.Blocks` | pkcs12/pkcs12sm.go:65-72 | `count` counter-mode blocks are `count` · 32 bytes long |
| `Sm2Kdf.StandardKdf` | pkcs12/pkcs12sm.go:65-72 | the standard KDF yields exactly `klen` bytes |
| `Sm2Kdf.FirstBlock` | pkcs12/pkcs12sm.go:65-71 | for any length of at least 32 bytes, the standard KDF's first 32 bytes are SM3(seed ‖ 0,0,0,1) |
| `Pkcs12Sm.Kdf` | pkcs12/pkcs12sm.go:65-72 | the source KDF is the standard KDF asked for one digest (32 bytes) |
| `Pkcs12Sm.SplitKeyMaterial` | pkcs12/pkcs12sm.go:85-88 | the IV is 16 bytes, the key is the other 16, and IV ‖ key is the digest |
| `Pkcs12Sm.Base64DecodeInto` | pkcs12/pkcs12sm.go:79-81 | the discarded base64 buffer has the length of the encrypted input |
| `Pkcs12Sm.DecryptSm2Key` | pkcs12/pkcs12sm.go:77-98 | nil exactly when the length is outside 32..64; inside the window the cipher gets the raw input, flag false and the split KDF digest; its output is returned, and its error aborts |
| `Pkcs12Sm.Decode` | pkcs12/pkcs12sm.go:34-59 | a returned key carries the returned certificate's public key, and the container unmarshalled with no trailing bytes |
| `Pkcs12Sm.DecodeChecked` | pkcs12/pkcs12sm.go:34-59 | corrected decoder: a returned key carries the returned certificate's public key |
| `Pkcs12SmProperties.KdfIsFirstCounterBlock` | pkcs12/pkcs12sm.go:65-72 | KDF(z) = SM3(z ‖ 0,0,0,1), which is the first 32 bytes of the standard KDF for any longer output: the counter loop is cut to one pass |
| `Pkcs12SmProperties.DecryptOutsideWindowUsesNoPrimitive` | pkcs12/pkcs12sm.go:77-98 | outside 32..64 bytes the result is nil, the same for every password, hash and cipher |
| `Pkcs12SmProperties.DecryptIgnoresBase64` | pkcs12/pkcs12sm.go:79-83 | swapping the base64 decoder for any other function leaves the result unchanged |
| `Pkcs12SmProperties.DecryptCallsCipherOnRawInput` | pkcs12/pkcs12sm.go:83-95 | inside the window the cipher is applied to the raw input with IV = SM3(pw ‖ 0001)[:16], key = the rest, flag false; the call aborts exactly when the cipher errs |
| `Pkcs12SmProperties.DecodeRejectsMalformed` | pkcs12/pkcs12sm.go:36-42 | an unmarshal error or any trailing byte gives an error and no key or certificate |
| `Pkcs12SmProperties.DecodeSucceedsExactly` | pkcs12/pkcs12sm.go:44-58 | for a well-formed container a key is returned exactly when decryption completes, the certificate parses and has an SM2 key; the key is that public key with D = SetBytes of the decrypted bytes (0 for nil); a non-SM2 certificate key aborts, and a well-formed container never ends in an error return |
| `Pkcs12SmProperties.DecodedScalarRecoversPlaintext` | pkcs12/pkcs12sm.go:56 | re-encoding D at the decrypted length gives the decrypted bytes back |
| `Pkcs12SmProperties.DecodeDecryptAbortFirst` | pkcs12/pkcs12sm.go:44-50 | a cipher failure aborts Decode before the certificate is parsed |
| `Pkcs12SmProperties.DecodeCertificateFailureAborts` | pkcs12/pkcs12sm.go:46-50 | a certificate parse failure aborts, and no key is returned |
| `Pkcs12SmProperties.DecodeIgnoresVersionAndOids` | pkcs12/pkcs12sm.go:17-32 | only the two content blobs affect the result; the version, OIDs and tags are never checked |
| `Pkcs12SmProperties.DecodeZeroScalarOutsideWindow` | pkcs12/pkcs12sm.go:44-97 | as written, an encrypted blob outside 32..64 bytes yields a "successful" key with D = 0 |
| `Pkcs12SmProperties.DecodeCheckedScalar` | pkcs12/pkcs12sm.go:44-58 | corrected: an out-of-window blob is refused with its length; a returned key comes from an in-window blob whose decryption produced bytes that D encodes |
| `Pkcs12SmProperties.DecodeCheckedAgreesElsewhere` | pkcs12/pkcs12sm.go:34-59 | the corrected decoder agrees with Decode on every other container |

## Findings

| source | as written | input that shows it | evidently intended | confidence | as-written member | corrected member |
|---|---|---|---|---|---|---|
| pkcs12/pkcs12sm.go:44-57,97 | an encrypted key outside 32..64 bytes makes `DecryptSm2Key` return nil; `SetBytes(nil)` is 0, and `Decode` returns a private key with D = 0 and no error | a container with a 31-byte private content blob and a certificate holding an SM2 key | a private blob outside 32..64 bytes is refused with the error `EncryptedKeyLength(len)` instead of becoming the scalar 0 | not executed; medium (the nil return is deliberate, but a zero scalar is not a usable SM2 key) | `Pkcs12SmProperties.DecodeZeroScalarOutsideWindow` | `Pkcs12SmProperties.DecodeCheckedScalar` |

## Left out

- `ReadPrivateKeyFromSMFile` is left out. It opens and reads a file and base64-decodes the text, which is I/O glue around `Decode`.
- SM3, SM4 and SM2 are not modelled; they are parameters (`Primitives`). This covers SM3's compression function, SM4's rounds, key schedule and CBC chaining, and SM2 curve arithmetic. The only fact assumed is SM3's 32-byte digest length.
- `asn1.Unmarshal` (DER decoding) and `x509.ParseCertificate` are not modelled; they are parameters too. So the model does not show that the DER layout of the container is enforced. It shows only what `Decode` does with the unmarshaller's result and leftover bytes.
- The base64 decode's error value and its partial writes are not modelled separately. The decoder parameter is an arbitrary function, and its buffer is provably discarded.
- `log.Fatal` and the panic of the type assertion are not modelled as process termination. Each becomes the single outcome `Aborted`.
- The public key in the model is a point with coordinates only. A nil `*sm2.PublicKey` inside a certificate (a nil dereference at line 55) is not distinguished from a valid key.
- `Pkcs12Sm.DecryptSm2Key` keeps a cipher output of no bytes (`Some([])`) apart from nil (`None`); Go cannot, since a nil `out` returned without error inside the window is also nil. D is 0 either way.
- The password is modelled as its bytes. Go's `[]byte(password)` is the string's byte sequence, so nothing is lost.
