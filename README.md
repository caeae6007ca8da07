# Basic authorizer of the product service

The product service's `basicAuthorizer` handler is written as an API Gateway
token authorizer: it takes an `APIGatewayTokenAuthorizerEvent`. It reads the
`Authorization` token, takes the credential that follows the scheme word,
base-64-decodes it, and splits the decoded text into a user name and a
password. It accepts the request only when `process.env` holds a non-empty
password for that user and the presented password is the same. An accepted
request gets an IAM policy document with one `execute-api:Invoke` / `Allow` /
`*` statement, naming the user as principal and in the context. Every failure
reaches the caller as the single error `Unauthorized`.

This project models that handler as pure functions:

- `Wrappers` holds `Option`, for JavaScript's `undefined`, and `Result`, for
  the throw/catch paths.
- `Octets` (in `octets.dfy`) holds `Byte` and three division lemmas.
- `JsSplit` is `String.prototype.split` with a one-character separator, plus
  the indexing that gives `undefined` past the last field.
- `Base64` is the alphabet of section 4 of RFC 4648. Decoding accepts only
  canonical text (section 3.5).
- `Utf8` is well-formed UTF-8 (RFC 3629) between bytes and Unicode scalar
  values.
- `BasicAuthorizer` is the handler itself. `Attempt` is the `try` block, and
  `Raised` says where it stopped. `MissingToken` and `Forbidden` are the
  block's two `throw` statements. `MissingCredential` is the TypeError that
  `Buffer.from(undefined)` raises. `UndecodableCredential` is not a throw of
  the handler: Node decodes any text, and it is the model that refuses a
  credential that is not canonical base 64 of well-formed UTF-8. `Authorize`
  is the whole function with its `catch`.
- `BasicAuthorizerProperties` holds the lemmas about the handler.

The environment is an explicit `map<string, string>` argument. The token is an
`Option<string>`, because API Gateway may leave it undefined.

The lemmas pin down the handler's quirks:

- The scheme word is never checked. `Bearer x` and `Basic x` get the same
  decision.
- Only the text between the first and the second `:` counts as the password.
  Under section 2 of RFC 7617 the password may contain colons. Here, a user
  configured with such a password can never log in.
- A configured empty password never grants access.
- The internal `Forbidden` never escapes.

## Model

| member | source | states |
|---|---|---|
| JsSplit.Split | src/functions/basicAuthorizer/handler.ts:12-14 | `split` always gives at least one field. It gives exactly one when the separator does not occur. No field contains the separator. |
| JsSplit.Field | src/functions/basicAuthorizer/handler.ts:12 | `split(sep)[i]` is defined exactly when `i` is below the number of fields, and it never contains the separator. |
| JsSplit.JoinSplit | src/functions/basicAuthorizer/handler.ts:12-14 | Joining the fields with the separator gives back the original text, so `split` loses nothing. |
| JsSplit.SplitJoin | src/functions/basicAuthorizer/handler.ts:12-14 | Splitting undoes joining when no field contains the separator. Together with JoinSplit, `split` and `join` are inverse. |
| JsSplit.SplitAtFirstSeparator | src/functions/basicAuthorizer/handler.ts:12-14 | The first field ends at the first separator, and the rest is split independently. |
| JsSplit.SplitFirstTwo | src/functions/basicAuthorizer/handler.ts:12-14 | A text that contains the separator is its first field, the separator, its second field and a tail that is empty or starts with the separator. |
| Base64.Encode | src/functions/basicAuthorizer/handler.ts:13 | The padded encoding has length 4·⌈n/3⌉. |
| Base64.EncodeAlphabet | src/functions/basicAuthorizer/handler.ts:13 | An encoding contains only alphabet characters and `=`, so never a space. |
| Base64.DecodeEncode | src/functions/basicAuthorizer/handler.ts:13 | Decoding the encoding of any bytes gives those bytes back. |
| Base64.EncodeDecode | src/functions/basicAuthorizer/handler.ts:13 | Every text the decoder accepts is exactly the encoding of what it returns. There are no non-canonical spellings. |
| Utf8.DecodeEncode | src/functions/basicAuthorizer/handler.ts:13 | `toString("utf-8")` applied to the UTF-8 encoding of any text gives that text back. |
| Utf8.EncodeDecode | src/functions/basicAuthorizer/handler.ts:13 | Every byte string the decoder accepts is exactly the encoding of the text it returns. Overlong forms, surrogates, stray continuation bytes and values beyond U+10FFFF are refused. |
| BasicAuthorizer.AllowResponse | src/functions/basicAuthorizer/handler.ts:22-37 | The response names the user both as principal and in the context, and every statement in its policy allows. |
| BasicAuthorizer.CredentialField | src/functions/basicAuthorizer/handler.ts:12 | `split(" ")[1]` is defined exactly when the token contains a space, and it contains no space itself. |
| Base64.Decode | src/functions/basicAuthorizer/handler.ts:13 | An accepted text is as long as the padded encoding of the bytes it gives. Base64.EncodeDecode and Base64.DecodeEncode make it the exact inverse of `Encode`. |
| Utf8.Decode | src/functions/basicAuthorizer/handler.ts:13 | An accepted byte string holds between one and four bytes per character it gives. Utf8.EncodeDecode and Utf8.DecodeEncode make it the exact inverse of `Encode`. |
| BasicAuthorizer.DecodeCredential | src/functions/basicAuthorizer/handler.ts:13 | A credential field that decodes is exactly the base 64 of the UTF-8 of the decoded text. |
| BasicAuthorizer.ParseCredentials | src/functions/basicAuthorizer/handler.ts:14 | The user name contains no colon. The password is undefined exactly when the decoded text has no colon. A defined password contains no colon. |
| BasicAuthorizer.CredentialsOf | src/functions/basicAuthorizer/handler.ts:12-14 | Reading the credentials stops with `MissingCredential` exactly when the token has no space, and otherwise only with `UndecodableCredential`. Read credentials have a user name without a colon. |
| BasicAuthorizer.Grants | src/functions/basicAuthorizer/handler.ts:16-18 | The negation of the `Forbidden` test, written as JavaScript evaluates it, holds exactly when the user has an entry, the entry is not empty, and the presented password is that entry. |
| BasicAuthorizer.Attempt | src/functions/basicAuthorizer/handler.ts:7-37 | The `try` block stops with `MissingToken` exactly when the token is undefined or empty. A response it gives is the allow response for its principal, a name without a colon. |
| BasicAuthorizer.Authorize | src/functions/basicAuthorizer/handler.ts:7-41 | Every failure of the `try` block reaches the caller as the one error `"Unauthorized"`. The handler succeeds exactly when the `try` block does, and with its response. |
| BasicAuthorizerProperties.MissingTokenDenied | src/functions/basicAuthorizer/handler.ts:8-10 | A missing or empty token raises `MissingToken` and is denied with `"Unauthorized"`. |
| BasicAuthorizerProperties.NoSpaceDenied | src/functions/basicAuthorizer/handler.ts:12-13 | A non-empty token without a space has no credential field. It fails at decoding and is denied. |
| BasicAuthorizerProperties.SchemeNotInspected | src/functions/basicAuthorizer/handler.ts:12 | Any two scheme words without spaces give the same decision for the same remainder of the token. |
| BasicAuthorizerProperties.AllowedExactlyWhenGranted | src/functions/basicAuthorizer/handler.ts:16-20 | A token is accepted if and only if it carries credentials whose user has a non-empty configured password equal to the password presented. |
| BasicAuthorizerProperties.UnconfiguredUserDenied | src/functions/basicAuthorizer/handler.ts:16-19 | An unknown user, or a user configured with the empty string, raises `Forbidden` and is denied with `"Unauthorized"`. |
| BasicAuthorizerProperties.NoColonDenied | src/functions/basicAuthorizer/handler.ts:14-19 | A decoded credential without a colon has no password. It raises `Forbidden`. |
| BasicAuthorizerProperties.AllowedResponseShape | src/functions/basicAuthorizer/handler.ts:22-37 | On success, `principalId` and `context.username` are both the decoded user. The policy is version `2012-10-17` with the single statement `execute-api:Invoke` / `Allow` / `*`. |
| BasicAuthorizerProperties.PasswordIsSecondField | src/functions/basicAuthorizer/handler.ts:14 | The user is the text before the first colon and the password the text between the first and second colons. Anything after a second colon is dropped. |
| BasicAuthorizerProperties.FieldOfToken | src/functions/basicAuthorizer/handler.ts:12 | The credential field of `scheme + " " + field + rest` is `field` whenever `rest` is empty or begins with a space. |
| BasicAuthorizerProperties.BasicTokenRoundTrip | src/functions/basicAuthorizer/handler.ts:12-14 | A token built as `scheme + " " + base64(utf8(user ":" password tail)) + rest` decodes to exactly `(user, password)`. |
| BasicAuthorizerProperties.BasicTokenDecision | src/functions/basicAuthorizer/handler.ts:12-37 | Such a token gets the allow response for `user` exactly when the configuration maps `user` to the non-empty value `password`. Otherwise it gets `"Unauthorized"`. |
| BasicAuthorizerProperties.AllowedTokenIsBasicToken | src/functions/basicAuthorizer/handler.ts:12-20 | The converse, for the model's canonical decoder: every token the model accepts has that shape, for a configured user, that user's non-empty configured password, some scheme, some tail and some rest. |
| BasicAuthorizerProperties.ColonInPasswordTruncated | src/functions/basicAuthorizer/handler.ts:14-18 | For an RFC 7617 token whose password contains a colon, only the text before that colon is compared. |
| BasicAuthorizerProperties.UnpaddedCredentialRefused | src/functions/basicAuthorizer/handler.ts:12-13 | `Basic dTpwYQ`, the unpadded base 64 of `u:pa`, is refused with `UndecodableCredential` even when `u` is configured with `pa`. Node would accept it. |
| BasicAuthorizerProperties.ColonPasswordNeverAccepted | src/functions/basicAuthorizer/handler.ts:14-18 | A user whose configured password contains a colon is never accepted, whatever the token. |

## Left out

- BasicAuthorizer.DecodeCredential: Node's `Buffer.from(s, "base64")` is lenient. It skips characters outside the alphabet, accepts the URL-safe `-` and `_`, and tolerates missing padding. The model decodes only canonical base 64. Any other credential ends in `UndecodableCredential` and is denied, where Node would decode something and compare it.
- BasicAuthorizer.DecodeCredential: `toString("utf-8")` turns malformed UTF-8 into U+FFFD replacement characters. The model refuses malformed UTF-8 instead, so such a credential is denied.
- BasicAuthorizerProperties.AllowedTokenIsBasicToken: the converse holds for the model only. Because Node's decoder is lenient, Node also accepts tokens of other shapes, such as `Basic dTpwYQ` (the base 64 of `u:pa` without padding) for a user `u` configured with `pa`. The model refuses that token, as BasicAuthorizerProperties.UnpaddedCredentialRefused shows.
- JavaScript strings are UTF-16. The model's strings are sequences of Unicode scalar values. A token with a lone surrogate cannot be written down in the model. For the well-formed text that UTF-8 decoding produces, the two comparisons agree.
- `process.env` is an object and inherits properties such as `constructor`. Their values are not strings, so they are never `===` to a password and always lead to `Forbidden`. The model's map just lacks those keys, which gives the same decision.
- The console logging at lines 4 and 39 is I/O and is not modelled.
- The `async` wrapper is not modelled: the handler awaits nothing, so `Authorize` returns the value the promise would resolve to, or the error it would reject with.
- The model keeps only the message of the error that escapes. The `Error` object and its stack are not modelled, and neither is the logged internal error.
- Out of the core: `infra/lib/product-service-stack.ts` and `infra/bin/infra.ts` are infrastructure declarations without computation. `build.mjs` is bundling and file I/O.
- `src/functions/catalogBatchProcess/handler.ts` only logs its event. It does no parsing, persistence or reporting, so there is nothing to model.
- `src/functions/getProductById/handler.ts` is a thin wrapper over a lookup module that is not part of this model.
