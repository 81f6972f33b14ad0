/** The interface of the PKCS#12 (RFC 7292) loader the view calls,
    `pkcs12.load_key_and_certificates(data, password)`. Decryption, MAC
    checking and DER parsing happen inside the library; the model keeps
    only the shape of what the call can return or raise. */
module Pkcs12 {
  import opened Wrappers
  import opened Utf8
  import opened X509Name

  /** A private key, kept as its encoding; the view never reads it. */
  datatype PrivateKey = PrivateKey(der: Bytes)

  /** What the loader call does: returns the (key, certificate, additional
      certificates) triple, raises a `ValueError` with a message, or raises
      any other exception. */
  datatype LoadOutcome =
    | Loaded(key: Option<PrivateKey>, certificate: Option<Certificate>, additional: seq<Certificate>)
    | ValueError(message: string)
    | OtherError

  /** The loader, from the bundle bytes and the optional password bytes. */
  type Loader = (Bytes, Option<Bytes>) -> LoadOutcome
}
