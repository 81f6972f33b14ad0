# pfx_parser: the `parse_pfx` decision, in Dafny

`parse_pfx` is a Django REST endpoint. It receives a multipart upload holding
a PKCS#12 bundle (RFC 7292) and an optional password. It opens the bundle with
the `cryptography` library and answers with the subject common name of the
bundle's certificate as a user id, or with one of four fixed error messages.
This project models the decision the view makes, as pure functions:

- `PfxView.ParsePfx` takes a request (an optional file, an optional password)
  and the loader. It returns exactly one `Response(status, body)`. The loader
  is a function parameter of type `Pkcs12.Loader`, from bundle bytes and
  optional password bytes to a `LoadOutcome`. So the model can state which
  arguments the library is called with, and that the missing-file branch never
  calls it.
- `PfxView.CoercePassword` turns an absent or empty password into "no
  password". Any other password becomes its UTF-8 bytes (`Utf8.Encode`). The
  module `Utf8` holds a decoder as well, and the round trip proved there shows
  that distinct passwords reach the loader as distinct bytes.
- `PfxView.RespondToLoad` classifies the loader's outcome. A `ValueError`
  whose lower-cased text contains `bad password` or `bad decrypt` means a
  wrong password. Every other failure means the bundle could not be parsed. A
  missing certificate is an error. A certificate without a common name gives
  the sentinel user id `CN not found`, which is a success.
- `X509Name.AttributesForOid` is the library's `get_attributes_for_oid`, a
  filter over the subject's (OID, value) sequence (section 4.1.2.6 of RFC
  5280). The user id is the head of that filter for id-at-commonName (2.5.4.3).
- The outer `except Exception` gives a 500 answer. It catches failures outside
  the loader call, and two of them are modelled: a file whose read fails
  (`UploadedFile.Unreadable`), and a certificate whose subject cannot be
  decoded (`Subject.Undecodable`; the library decodes the name only when it is
  first read).

A consequence of the sentinel that the lemmas make visible: any certificate
whose first common name is literally `CN not found` gets the same response as
any certificate without a common name (`PfxViewProperties.SentinelCommonNameIndistinguishable`).

The view only checks whether the `file` field is present (views.py:19). An
uploaded empty file is handed to the loader, and its failure is classified
like any other.

## Model

| member | source | states |
|---|---|---|
| `PfxView.ParsePfx` | pfx_parser_app/views.py:13-64 | Every response is well formed: the status is 200, 400 or 500; it is 200 exactly when the body is a user id; an error body is one of the four fixed messages; and a 500 always carries the generic parse-failure message. A request without a file gets the 400 no-file response. An unreadable file gets the 500 response. |
| `PfxView.RespondToLoad` | pfx_parser_app/views.py:30-60 | Every response to a loader outcome is well formed. It is 200 exactly when a certificate was loaded and its subject decodes. It is 500 exactly when a certificate was loaded but its subject does not decode. |
| `PfxView.CoercePassword` | pfx_parser_app/views.py:23-27 | The loader receives no password exactly when the field is absent or empty. Otherwise it receives non-empty bytes that decode back to the password. |
| `PfxView.UserIdOf` | pfx_parser_app/views.py:52-58 | A subject with no common name gives `CN not found`. A subject with a common name gives the value of the first common name in subject order. |
| `PfxView.IsPasswordError` | pfx_parser_app/views.py:37 | The error text names a wrong password exactly when its lower-cased form has an occurrence of `bad password` or of `bad decrypt`. |
| `PfxViewProperties.NoFileIgnoresLoader` | pfx_parser_app/views.py:19-20 | Without a file the answer is 400 with the no-file message, and any two loaders give the same answer, so the loader's outcome is never consulted. |
| `PfxViewProperties.AbsentAndEmptyPasswordAgree` | pfx_parser_app/views.py:23-27 | An absent password and an empty password give the same response for every file and loader. |
| `PfxViewProperties.NonEmptyPasswordsStayDistinct` | pfx_parser_app/views.py:27 | A non-empty password reaches the loader as its UTF-8 bytes. Two different non-empty passwords never reach it as the same bytes. |
| `PfxViewProperties.WrongPasswordIff` | pfx_parser_app/views.py:34-38 | The 400 wrong-password response occurs if and only if the loader raised a `ValueError` whose lower-cased text contains one of the two markers. |
| `PfxViewProperties.OtherFailuresAreMalformed` | pfx_parser_app/views.py:39-43 | A `ValueError` without either marker, and any other loader exception, both give 400 with the parse-failure message. |
| `PfxViewProperties.MessageCaseIrrelevant` | pfx_parser_app/views.py:37 | Two error texts that lower-case alike are classified alike. |
| `PfxViewProperties.MessageCaseChangesNothing` | pfx_parser_app/views.py:37 | ASCII upper-casing or ASCII lower-casing the error text does not change the response. |
| `PfxViewProperties.MarkerAnywhereIsWrongPassword` | pfx_parser_app/views.py:37-38 | A marker in any letter case gives the wrong-password response, whatever text surrounds it. The password check wins over the generic fallback. |
| `PfxViewProperties.MissingCertificateIsError` | pfx_parser_app/views.py:46-49 | A loaded bundle without a certificate gives 400 with the no-certificate message, whatever key and additional certificates it holds. |
| `PfxViewProperties.FirstCommonNameWins` | pfx_parser_app/views.py:52-60 | When position i holds the first common name of the subject, the response is 200 with that attribute's value as the user id. |
| `PfxViewProperties.NoCommonNameGivesSentinel` | pfx_parser_app/views.py:55-56 | A certificate whose subject has no common name gives 200 with the user id `CN not found`, not an error. |
| `PfxViewProperties.AttributesAfterCommonNameIgnored` | pfx_parser_app/views.py:53-58 | Attributes appended after a subject that already holds a common name do not change the user id. |
| `PfxViewProperties.OtherAttributesBeforeIgnored` | pfx_parser_app/views.py:53-58 | Attributes of other types placed before the subject do not change the user id. |
| `PfxViewProperties.SentinelCommonNameIndistinguishable` | pfx_parser_app/views.py:55-60 | Any certificate whose first common name has the value `CN not found` gets the same response as any certificate whose subject has no common name, whatever keys and additional certificates come with either. |
| `PfxViewProperties.InternalErrorIff` | pfx_parser_app/views.py:62-64 | The 500 response occurs if and only if the file cannot be read, or the loaded certificate's subject cannot be decoded. |
| `PfxViewProperties.TestUserBundle` | pfx_parser_app/tests.py:22-72 | The test fixture: a loaded bundle with its key, no additional certificates and a certificate whose only subject attribute is the common name "testuser". The view answers it with 200 and user id "testuser". |
| `PfxViewProperties.TestUserWithPassword` | pfx_parser_app/tests.py:74-82 | A bundle that the loader opens with "testpass" to a certificate whose common name is "testuser" answers 200 with user id "testuser". |
| `PfxViewProperties.TestUserWithoutPassword` | pfx_parser_app/tests.py:84-91 | The same bundle, opened without a password, answers 200 with user id "testuser". |
| `PfxViewProperties.TestWrongPassword` | pfx_parser_app/tests.py:93-101 | When the loader fails for "wrongpass" with text that contains the decrypt marker, in any case, the answer is 400 with the wrong-password message. |
| `PfxViewProperties.TestInvalidFile` | pfx_parser_app/tests.py:109-118 | When the loader fails for a non-bundle without naming a password problem, the answer is 400 with the parse-failure message. |
| `Utf8.Encode` | pfx_parser_app/views.py:27 | A string of n characters encodes to between n and 4n bytes. |
| `Utf8.DecodeEncode` | pfx_parser_app/views.py:27 | Decoding the UTF-8 encoding of any string gives that string back. |
| `Utf8.EncodeInjective` | pfx_parser_app/views.py:27 | Different strings have different UTF-8 encodings. |
| `AsciiText.Lower` | pfx_parser_app/views.py:37 | The result has the input's length, and each character is the input's character with ASCII capitals mapped to small letters. |
| `AsciiText.Contains` | pfx_parser_app/views.py:37 | Python's `in` on strings: the test holds exactly when the pattern occurs at some position of the text. |
| `AsciiText.ContainsInContext` | pfx_parser_app/views.py:37 | An occurrence of a pattern is still an occurrence when text is added before or after it. |
| `AsciiText.LowerConcat` | pfx_parser_app/views.py:37 | Lower-casing distributes over concatenation. |
| `AsciiText.LowerUpper` | pfx_parser_app/views.py:37 | ASCII upper-casing a text first does not change its ASCII lower-cased form. |
| `X509Name.AttributesForOid` | pfx_parser_app/views.py:53 | The lookup holds exactly the attributes of the subject that have the requested type, and is no longer than the subject. |
| `X509Name.AttributesForOidHead` | pfx_parser_app/views.py:53-58 | The lookup is empty exactly when the subject has no attribute of the type. Otherwise its head is the first such attribute in subject order. |
| `X509Name.FirstWithOidExists` | pfx_parser_app/views.py:53-58 | A subject either has no attribute of a type, or has a first one. |
| `X509Name.AttributesForOidConcat` | pfx_parser_app/views.py:53 | The lookup over two concatenated subjects is the concatenation of the two lookups. |

## Left out

- PKCS#12 decryption, MAC checking, key derivation and ASN.1/DER parsing in `cryptography` are not modelled. They are foreign library code. The loader is a function parameter, and its outcome is a datatype: a (key, certificate, additional certificates) triple, a `ValueError` with text, or another exception. Whether the library's texts actually contain the two markers is outside the model.
- X.509 subject decoding is not modelled. It is library code, so a subject is either a decoded sequence of (OID, value) attributes or undecodable.
- Django and REST framework plumbing is not modelled: the decorators, the multipart parser, `request.FILES` and `request.data`, response serialisation, and the routing in pfx_parser_app/urls.py. It is transport. The request is reduced to an optional file and an optional password string.
- The `print` diagnostics (views.py:17-18 and 63) are left out because they are console output. Reading the file is also I/O: the model only records whether the read succeeds and which bytes it yields.
- PfxViewProperties.MessageCaseChangesNothing: case invariance is proved for ASCII case changes only. Python's full `str.upper()` maps some non-ASCII letters to ASCII ones (U+017F to `S`, U+0131 to `I`, U+00DF to `SS`, the ligatures U+FB00 to U+FB06). So upper-casing a text such as `bad paſſword` in Python creates a marker that the original text lacks.
- Python's `str.lower()` is modelled by ASCII lower-casing. Both markers are ASCII, and the only non-ASCII characters that lower-case to ASCII letters are U+212A (to `k`) and U+0130 (to `i` and a combining dot). Neither letter occurs in a marker, so both functions find the same markers.
- A password holding a lone surrogate cannot be represented, because Dafny characters are Unicode scalar values. In Python, encoding such a password raises, and that gives the 500 response.
- The private key and the additional certificates are carried in the outcome but never read, as in the view. The `InvalidToken` import in views.py is unused there.
