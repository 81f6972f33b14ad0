/** The `parse_pfx` endpoint: from an upload (an optional file and an
    optional password) and the PKCS#12 loader, exactly one response, either
    a user id taken from the certificate's subject common name or one of
    four fixed error messages. */
module PfxView {
  import opened Wrappers
  import opened Utf8
  import opened AsciiText
  import opened X509Name
  import opened Pkcs12

  const HttpOk := 200
  const HttpBadRequest := 400
  const HttpInternalServerError := 500

  const NoFileMessage := "ファイルがアップロードされていません。"
  const WrongPasswordMessage := "パスワードが間違っています。"
  const ParseFailedMessage := "pfx/p12ファイルの解析に失敗しました。"
  const NoCertificateMessage := "証明書が見つかりませんでした。"

  /** The user id reported for a certificate whose subject has no common
      name; a success, not an error. */
  const CnNotFound := "CN not found"

  /** The two markers of a wrong password in the loader's error text. */
  const BadPasswordMarker := "bad password"
  const BadDecryptMarker := "bad decrypt"

  /** A response body: `{"user_id": …}` or `{"error": …}`. */
  datatype Body = UserId(id: string) | Error(message: string)

  datatype Response = Response(status: int, body: Body)

  /** The uploaded `file` field; reading it may raise. */
  datatype UploadedFile = Readable(data: Bytes) | Unreadable

  /** The multipart request as the view sees it. */
  datatype Request = Request(file: Option<UploadedFile>, password: Option<string>)

  /** The shape every response of the endpoint has: 200 exactly when the body
      carries a user id, and an error body holds one of the four fixed
      messages (never text taken from an exception), the 500 one always the
      generic parse failure. */
  predicate WellFormed(r: Response)
  {
    && (r.status == HttpOk || r.status == HttpBadRequest || r.status == HttpInternalServerError)
    && (r.status == HttpOk <==> r.body.UserId?)
    && (r.body.Error? ==>
          r.body.message in {NoFileMessage, WrongPasswordMessage, ParseFailedMessage, NoCertificateMessage})
    && (r.status == HttpInternalServerError ==> r.body == Error(ParseFailedMessage))
  }

  /** The password handed to the loader: no password for an absent or empty
      field, otherwise the field's UTF-8 bytes, from which it is recovered. */
  function CoercePassword(password: Option<string>): (r: Option<Bytes>)
    ensures r.None? <==> password.None? || password.value == []
    ensures r.Some? ==> r.value != [] && Decode(r.value) == Some(password.value)
  {
    match password
    case None => None
    case Some(p) =>
      if p == [] then None
      else
        DecodeEncode(p);
        Some(Encode(p))
  }

  /** The loader's `ValueError` text names a wrong password: its lower-cased
      form contains one of the two markers. */
  predicate IsPasswordError(message: string): (b: bool)
    ensures b <==> Occurs(Lower(message), BadPasswordMarker) || Occurs(Lower(message), BadDecryptMarker)
  {
    var lowered := Lower(message);
    var password := Contains(lowered, BadPasswordMarker);
    var decrypt := Contains(lowered, BadDecryptMarker);
    password || decrypt
  }

  /** The user id for a decoded subject: the value of its first common name,
      or the sentinel when it has none. */
  function UserIdOf(attributes: seq<Attribute>): (id: string)
    ensures (forall a :: a in attributes ==> a.oid != CommonNameOid) ==> id == CnNotFound
    ensures forall i :: IsFirstWithOid(attributes, CommonNameOid, i) ==> id == attributes[i].value
  {
    AttributesForOidHead(attributes, CommonNameOid);
    var names := AttributesForOid(attributes, CommonNameOid);
    if names == [] then CnNotFound else names[0].value
  }

  /** The response to what the loader call did, for a readable upload. */
  function RespondToLoad(outcome: LoadOutcome): (r: Response)
    ensures WellFormed(r)
    ensures r.status == HttpOk <==>
      outcome.Loaded? && outcome.certificate.Some? && outcome.certificate.value.subject.Decoded?
    ensures r.status == HttpInternalServerError <==>
      outcome.Loaded? && outcome.certificate.Some? && outcome.certificate.value.subject.Undecodable?
  {
    match outcome
    case ValueError(message) =>
      if IsPasswordError(message) then Response(HttpBadRequest, Error(WrongPasswordMessage))
      else Response(HttpBadRequest, Error(ParseFailedMessage))
    case OtherError =>
      Response(HttpBadRequest, Error(ParseFailedMessage))
    case Loaded(_, certificate, _) =>
      match certificate
      case None => Response(HttpBadRequest, Error(NoCertificateMessage))
      case Some(cert) =>
        match cert.subject
        case Undecodable => Response(HttpInternalServerError, Error(ParseFailedMessage))
        case Decoded(attributes) => Response(HttpOk, UserId(UserIdOf(attributes)))
  }

  /** `parse_pfx`: the missing-file check, then the read, the password
      coercion, one loader call and the response to its outcome. */
  function ParsePfx(request: Request, load: Loader): (r: Response)
    ensures WellFormed(r)
    ensures request.file.None? ==> r == Response(HttpBadRequest, Error(NoFileMessage))
    ensures request.file == Some(Unreadable) ==> r == Response(HttpInternalServerError, Error(ParseFailedMessage))
  {
    match request.file
    case None => Response(HttpBadRequest, Error(NoFileMessage))
    case Some(Unreadable) => Response(HttpInternalServerError, Error(ParseFailedMessage))
    case Some(Readable(data)) => RespondToLoad(load(data, CoercePassword(request.password)))
  }
}
