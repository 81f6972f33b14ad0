/** What `parse_pfx` promises, stated over all uploads, loaders and loader
    outcomes. */
module PfxViewProperties {
  import opened Wrappers
  import opened Utf8
  import opened AsciiText
  import opened X509Name
  import opened Pkcs12
  import opened PfxView

  // ---- Missing file ----

  /** Without a `file` field the answer is the 400 "no file" response, and the
      loader is never consulted: any two loaders give the same response. */
  lemma NoFileIgnoresLoader(password: Option<string>, load: Loader, other: Loader)
    ensures ParsePfx(Request(None, password), load) == Response(HttpBadRequest, Error(NoFileMessage))
    ensures ParsePfx(Request(None, password), load) == ParsePfx(Request(None, password), other)
  {
  }

  // ---- Password coercion ----

  /** An absent password and an empty one are the same request. */
  lemma AbsentAndEmptyPasswordAgree(file: Option<UploadedFile>, load: Loader)
    ensures ParsePfx(Request(file, None), load) == ParsePfx(Request(file, Some("")), load)
  {
  }

  /** A non-empty password reaches the loader as its UTF-8 bytes, and two
      different non-empty passwords never reach it as the same bytes. */
  lemma NonEmptyPasswordsStayDistinct(p: string, q: string)
    requires p != [] && q != []
    ensures CoercePassword(Some(p)) == Some(Encode(p))
    ensures p != q ==> CoercePassword(Some(p)) != CoercePassword(Some(q))
  {
  }

  // ---- Decode-failure classification ----

  /** The wrong-password response comes from a `ValueError` whose lower-cased
      message holds a marker, and from nothing else. */
  lemma WrongPasswordIff(outcome: LoadOutcome)
    ensures RespondToLoad(outcome) == Response(HttpBadRequest, Error(WrongPasswordMessage))
      <==> outcome.ValueError? && IsPasswordError(outcome.message)
    ensures RespondToLoad(outcome).body == Error(WrongPasswordMessage)
      ==> RespondToLoad(outcome).status == HttpBadRequest
  {
  }

  /** Every other load failure, a `ValueError` without a marker or any other
      exception, is the 400 parse-failure response. */
  lemma OtherFailuresAreMalformed(outcome: LoadOutcome)
    requires outcome.OtherError? || (outcome.ValueError? && !IsPasswordError(outcome.message))
    ensures RespondToLoad(outcome) == Response(HttpBadRequest, Error(ParseFailedMessage))
  {
  }

  /** Messages that lower-case alike are classified alike. */
  lemma MessageCaseIrrelevant(message: string, variant: string)
    requires Lower(message) == Lower(variant)
    ensures RespondToLoad(ValueError(message)) == RespondToLoad(ValueError(variant))
  {
  }

  /** ASCII upper-casing or lower-casing the error text changes nothing. */
  lemma MessageCaseChangesNothing(message: string)
    ensures RespondToLoad(ValueError(Upper(message))) == RespondToLoad(ValueError(message))
    ensures RespondToLoad(ValueError(Lower(message))) == RespondToLoad(ValueError(message))
  {
    LowerUpper(message);
    LowerLower(message);
    MessageCaseIrrelevant(Upper(message), message);
    MessageCaseIrrelevant(Lower(message), message);
  }

  /** A marker, in any letter case and anywhere in the text, makes the error a
      wrong password, whatever else the text says: the password check comes
      before the generic fallback. */
  lemma MarkerAnywhereIsWrongPassword(before: string, marker: string, after: string)
    requires Lower(marker) == BadPasswordMarker || Lower(marker) == BadDecryptMarker
    ensures RespondToLoad(ValueError(before + marker + after))
      == Response(HttpBadRequest, Error(WrongPasswordMessage))
  {
    LowerConcat(before + marker, after);
    LowerConcat(before, marker);
    ContainsSelf(Lower(marker));
    ContainsInContext(Lower(before), Lower(marker), Lower(after), Lower(marker));
    assert Lower(before + marker + after) == Lower(before) + Lower(marker) + Lower(after);
  }

  // ---- Identity extraction ----

  /** A loaded bundle without a certificate is an error, whatever key and
      additional certificates come with it. */
  lemma MissingCertificateIsError(key: Option<PrivateKey>, additional: seq<Certificate>)
    ensures RespondToLoad(Loaded(key, None, additional)) == Response(HttpBadRequest, Error(NoCertificateMessage))
  {
  }

  /** With a common name in the subject, the user id is the value of the first
      one in subject order. */
  lemma FirstCommonNameWins(
    key: Option<PrivateKey>, attributes: seq<Attribute>, additional: seq<Certificate>, i: int)
    requires IsFirstWithOid(attributes, CommonNameOid, i)
    ensures RespondToLoad(Loaded(key, Some(Certificate(Decoded(attributes))), additional))
      == Response(HttpOk, UserId(attributes[i].value))
  {
  }

  /** Without a common name the answer is a success carrying the sentinel. */
  lemma NoCommonNameGivesSentinel(
    key: Option<PrivateKey>, attributes: seq<Attribute>, additional: seq<Certificate>)
    requires forall a :: a in attributes ==> a.oid != CommonNameOid
    ensures RespondToLoad(Loaded(key, Some(Certificate(Decoded(attributes))), additional))
      == Response(HttpOk, UserId(CnNotFound))
  {
  }

  /** Attributes after a common name do not change the user id. */
  lemma AttributesAfterCommonNameIgnored(attributes: seq<Attribute>, later: seq<Attribute>)
    requires exists a :: a in attributes && a.oid == CommonNameOid
    ensures UserIdOf(attributes + later) == UserIdOf(attributes)
  {
    AttributesForOidHead(attributes, CommonNameOid);
    AttributesForOidConcat(attributes, later, CommonNameOid);
  }

  /** Attributes of other types placed before the subject do not change the
      user id. */
  lemma OtherAttributesBeforeIgnored(earlier: seq<Attribute>, attributes: seq<Attribute>)
    requires forall a :: a in earlier ==> a.oid != CommonNameOid
    ensures UserIdOf(earlier + attributes) == UserIdOf(attributes)
  {
    AttributesForOidHead(earlier, CommonNameOid);
    AttributesForOidConcat(earlier, attributes, CommonNameOid);
  }

  /** A certificate whose first common name has the sentinel text as its
      value answers exactly as any certificate without a common name: the
      response cannot tell them apart. */
  lemma SentinelCommonNameIndistinguishable(
    key: Option<PrivateKey>, additional: seq<Certificate>, attributes: seq<Attribute>, i: int,
    otherKey: Option<PrivateKey>, otherAdditional: seq<Certificate>, other: seq<Attribute>)
    requires IsFirstWithOid(attributes, CommonNameOid, i) && attributes[i].value == CnNotFound
    requires forall a :: a in other ==> a.oid != CommonNameOid
    ensures RespondToLoad(Loaded(key, Some(Certificate(Decoded(attributes))), additional))
      == RespondToLoad(Loaded(otherKey, Some(Certificate(Decoded(other))), otherAdditional))
  {
  }

  // ---- Whole request ----

  /** The 500 response arises only outside the loader call: an unreadable
      file, or a certificate whose subject cannot be read. */
  lemma InternalErrorIff(request: Request, load: Loader)
    ensures ParsePfx(request, load).status == HttpInternalServerError <==>
      || request.file == Some(Unreadable)
      || (&& request.file.Some? && request.file.value.Readable?
          && var outcome := load(request.file.value.data, CoercePassword(request.password));
          && outcome.Loaded? && outcome.certificate.Some?
          && outcome.certificate.value.subject.Undecodable?)
  {
  }

  /** The bundle of the test suite: a certificate whose only subject attribute
      is the common name "testuser", with its key and no additional
      certificates. */
  function TestUserBundle(key: PrivateKey): (bundle: LoadOutcome)
    ensures RespondToLoad(bundle) == Response(HttpOk, UserId("testuser"))
  {
    assert IsFirstWithOid([Attribute(CommonNameOid, "testuser")], CommonNameOid, 0);
    Loaded(Some(key), Some(Certificate(Decoded([Attribute(CommonNameOid, "testuser")]))), [])
  }

  /** A bundle sealed with "testpass" and opened with it answers "testuser". */
  lemma TestUserWithPassword(data: Bytes, key: PrivateKey, load: Loader)
    requires load(data, Some(Encode("testpass"))) == TestUserBundle(key)
    ensures ParsePfx(Request(Some(Readable(data)), Some("testpass")), load) == Response(HttpOk, UserId("testuser"))
  {
  }

  /** An unencrypted bundle opened with no password answers "testuser". */
  lemma TestUserWithoutPassword(data: Bytes, key: PrivateKey, load: Loader)
    requires load(data, None) == TestUserBundle(key)
    ensures ParsePfx(Request(Some(Readable(data)), None), load) == Response(HttpOk, UserId("testuser"))
  {
  }

  /** The same bundle opened with "wrongpass", when the loader's error text
      carries the decrypt marker in any letter case, answers "wrong
      password". */
  lemma TestWrongPassword(data: Bytes, load: Loader, before: string, marker: string, after: string)
    requires Lower(marker) == BadDecryptMarker
    requires load(data, Some(Encode("wrongpass"))) == ValueError(before + marker + after)
    ensures ParsePfx(Request(Some(Readable(data)), Some("wrongpass")), load)
      == Response(HttpBadRequest, Error(WrongPasswordMessage))
  {
    MarkerAnywhereIsWrongPassword(before, marker, after);
    assert CoercePassword(Some("wrongpass")) == Some(Encode("wrongpass"));
  }

  /** Bytes that are not a bundle, with no password, answer "parse failed"
      whenever the loader's complaint names no password problem. */
  lemma TestInvalidFile(data: Bytes, load: Loader)
    requires load(data, None).OtherError? || (load(data, None).ValueError? && !IsPasswordError(load(data, None).message))
    ensures ParsePfx(Request(Some(Readable(data)), None), load) == Response(HttpBadRequest, Error(ParseFailedMessage))
  {
  }
}
