/** What the authorizer promises, stated over the model in BasicAuthorizer. */
module BasicAuthorizerProperties {
  import opened Wrappers
  import JsSplit
  import Base64
  import Utf8
  import opened BasicAuthorizer

  /** A missing or empty token is refused before anything else is looked at. */
  lemma MissingTokenDenied(authorizationToken: Option<string>, env: Environment)
    requires authorizationToken.None? || authorizationToken == Some("")
    ensures Attempt(authorizationToken, env) == Err(MissingToken)
    ensures Authorize(authorizationToken, env) == Err(UnauthorizedMessage)
  {
  }

  /** A token without a space has no credential field, and is refused. */
  lemma NoSpaceDenied(authorizationToken: string, env: Environment)
    requires authorizationToken != "" && ' ' !in authorizationToken
    ensures Attempt(Some(authorizationToken), env) == Err(MissingCredential)
    ensures Authorize(Some(authorizationToken), env) == Err(UnauthorizedMessage)
  {
  }

  /** The scheme word is never inspected: any two words without spaces lead
      to the same decision for the same remainder. */
  lemma SchemeNotInspected(scheme1: string, scheme2: string, remainder: string, env: Environment)
    requires ' ' !in scheme1 && ' ' !in scheme2
    ensures Authorize(Some(scheme1 + " " + remainder), env) == Authorize(Some(scheme2 + " " + remainder), env)
  {
    JsSplit.SplitAtFirstSeparator(scheme1, ' ', remainder);
    JsSplit.SplitAtFirstSeparator(scheme2, ' ', remainder);
  }

  /** Access is granted exactly when the token carries credentials whose
      user is configured with a non-empty password equal to the one presented.
      This is the decision at lines 16-20 read off `Attempt`; what it means for
      the tokens a client sends is stated by BasicTokenDecision and
      AllowedTokenIsBasicToken. */
  lemma AllowedExactlyWhenGranted(authorizationToken: string, env: Environment)
    ensures Authorize(Some(authorizationToken), env).Ok? <==>
      CredentialsOf(authorizationToken).Ok? && Grants(env, CredentialsOf(authorizationToken).value)
  {
  }

  /** A user with no entry, or with an empty entry, is refused whatever
      password is presented; internally that is `Forbidden`. */
  lemma UnconfiguredUserDenied(authorizationToken: string, env: Environment)
    requires CredentialsOf(authorizationToken).Ok?
    requires var user := CredentialsOf(authorizationToken).value.username; user !in env || env[user] == ""
    ensures Attempt(Some(authorizationToken), env) == Err(Forbidden)
    ensures Authorize(Some(authorizationToken), env) == Err(UnauthorizedMessage)
  {
  }

  /** A decoded credential without a colon carries no password, and is refused. */
  lemma NoColonDenied(authorizationToken: string, env: Environment, decoded: string)
    requires CredentialField(authorizationToken).Some?
    requires DecodeCredential(CredentialField(authorizationToken).value) == Some(decoded)
    requires ':' !in decoded
    ensures CredentialsOf(authorizationToken) == Ok(Credentials(decoded, None))
    ensures Attempt(Some(authorizationToken), env) == Err(Forbidden)
  {
    JsSplit.SplitWithoutSeparator(decoded, ':');
  }

  /** An accepted token gets the fixed one-statement policy, and both the
      principal and the context name the decoded user. */
  lemma AllowedResponseShape(authorizationToken: Option<string>, env: Environment)
    requires Authorize(authorizationToken, env).Ok?
    ensures authorizationToken.Some? && CredentialsOf(authorizationToken.value).Ok?
    ensures var response := Authorize(authorizationToken, env).value;
      var user := CredentialsOf(authorizationToken.value).value.username;
      && response.principalId == user
      && response.context.username == user
      && response.policyDocument.version == "2012-10-17"
      && response.policyDocument.statement == [Statement("execute-api:Invoke", "Allow", "*")]
  {
  }

  /** The user is the text before the first colon and the password the text
      between the first and the second; whatever follows is dropped. */
  lemma PasswordIsSecondField(user: string, password: string, tail: string)
    requires ':' !in user && ':' !in password && IsIgnoredTail(tail, ':')
    ensures ParseCredentials(user + ":" + password + tail) == Credentials(user, Some(password))
  {
    JsSplit.SplitAtFirstSeparator(user, ':', password + tail);
    assert user + ":" + password + tail == user + [':'] + (password + tail);
    if tail == [] {
      JsSplit.SplitWithoutSeparator(password, ':');
      assert password + tail == password;
    } else {
      JsSplit.SplitAtFirstSeparator(password, ':', tail[1..]);
      assert password + tail == password + [':'] + tail[1..];
    }
  }

  /** The credential field of `scheme + " " + field + rest`. */
  lemma FieldOfToken(scheme: string, field: string, rest: string)
    requires ' ' !in scheme && ' ' !in field && IsIgnoredTail(rest, ' ')
    ensures CredentialField(scheme + " " + field + rest) == Some(field)
  {
    assert scheme + " " + field + rest == scheme + [' '] + (field + rest);
    JsSplit.SplitAtFirstSeparator(scheme, ' ', field + rest);
    if rest == [] {
      assert field + rest == field;
      JsSplit.SplitWithoutSeparator(field, ' ');
    } else {
      assert field + rest == field + [' '] + rest[1..];
      JsSplit.SplitAtFirstSeparator(field, ' ', rest[1..]);
    }
  }

  /** Decoding a Basic token gives back the user and password it was built from. */
  lemma BasicTokenRoundTrip(scheme: string, user: string, password: string, tail: string, rest: string)
    requires ' ' !in scheme && ':' !in user && ':' !in password
    requires IsIgnoredTail(tail, ':') && IsIgnoredTail(rest, ' ')
    ensures CredentialsOf(BasicToken(scheme, user, password, tail, rest)) == Ok(Credentials(user, Some(password)))
  {
    var decoded := user + ":" + password + tail;
    var bytes := Utf8.Encode(decoded);
    var field := Base64.Encode(bytes);
    assert ' ' !in field by {
      Base64.EncodeAlphabet(bytes);
      forall i | 0 <= i < |field| ensures field[i] != ' ' {
        assert Base64.IsAlphabetChar(field[i]) || field[i] == '=';
      }
    }
    FieldOfToken(scheme, field, rest);
    Base64.DecodeEncode(bytes);
    Utf8.DecodeEncode(decoded);
    PasswordIsSecondField(user, password, tail);
  }

  /** The decision on a Basic token: allowed exactly when the user is
      configured with the non-empty password the token carries. */
  lemma BasicTokenDecision(scheme: string, user: string, password: string, tail: string, rest: string, env: Environment)
    requires ' ' !in scheme && ':' !in user && ':' !in password
    requires IsIgnoredTail(tail, ':') && IsIgnoredTail(rest, ' ')
    ensures Authorize(Some(BasicToken(scheme, user, password, tail, rest)), env) ==
      if user in env && env[user] != "" && env[user] == password then Ok(AllowResponse(user))
      else Err(UnauthorizedMessage)
  {
    BasicTokenRoundTrip(scheme, user, password, tail, rest);
  }

  /** Every accepted token is a Basic token for a configured user and that
      user's non-empty configured password. */
  lemma AllowedTokenIsBasicToken(authorizationToken: string, env: Environment)
    requires Authorize(Some(authorizationToken), env).Ok?
    ensures var user := Authorize(Some(authorizationToken), env).value.principalId;
      && user in env && env[user] != "" && ':' !in user && ':' !in env[user]
      && exists scheme, tail, rest ::
        && ' ' !in scheme && IsIgnoredTail(tail, ':') && IsIgnoredTail(rest, ' ')
        && authorizationToken == BasicToken(scheme, user, env[user], tail, rest)
  {
    var fields := JsSplit.Split(authorizationToken, ' ');
    var rest := JsSplit.SplitFirstTwo(authorizationToken, ' ');
    var field := fields[1];
    var bytes := Base64.Decode(field).value;
    var decoded := Utf8.Decode(bytes).value;
    Base64.EncodeDecode(field);
    Utf8.EncodeDecode(bytes);
    var tail := JsSplit.SplitFirstTwo(decoded, ':');
    var user := Authorize(Some(authorizationToken), env).value.principalId;
    assert decoded == user + ":" + env[user] + tail;
    assert authorizationToken == BasicToken(fields[0], user, env[user], tail, rest);
  }

  /** Unlike section 2 of RFC 7617, a password may not hold a colon: the
      token of such a password counts only as the text before its first colon. */
  lemma ColonInPasswordTruncated(user: string, password: string, env: Environment)
    requires ':' !in user && ':' in password
    ensures var presented := JsSplit.Split(password, ':')[0];
      Authorize(Some(BasicToken("Basic", user, password, "", "")), env) ==
        if user in env && env[user] != "" && env[user] == presented then Ok(AllowResponse(user))
        else Err(UnauthorizedMessage)
  {
    var presented, tail' := SplitPassword(user, password);
    BasicTokenDecision("Basic", user, presented, tail', "", env);
  }

  /** A password holding a colon, as the first colon-free field and a tail. */
  lemma SplitPassword(user: string, password: string) returns (presented: string, tail: string)
    requires ':' in password
    ensures presented == JsSplit.Split(password, ':')[0]
    ensures ':' !in presented && IsIgnoredTail(tail, ':')
    ensures BasicToken("Basic", user, password, "", "") == BasicToken("Basic", user, presented, tail, "")
  {
    var fields := JsSplit.Split(password, ':');
    var rest := JsSplit.SplitFirstTwo(password, ':');
    presented := fields[0];
    tail := [':'] + fields[1] + rest;
    assert user + ":" + password + "" == user + ":" + presented + tail;
  }

  /** So a user configured with a password that holds a colon can never get in. */
  lemma ColonPasswordNeverAccepted(authorizationToken: string, env: Environment, user: string)
    requires user in env && ':' in env[user]
    ensures Authorize(Some(authorizationToken), env) != Ok(AllowResponse(user))
  {
    if Authorize(Some(authorizationToken), env) == Ok(AllowResponse(user)) {
      AllowedTokenIsBasicToken(authorizationToken, env);
    }
  }

  /** Where the model is stricter than Node: `dTpwYQ` is `u:pa` in base 64
      without its padding, which `Buffer.from` accepts. The model refuses it,
      so the configured user `u` is denied. */
  lemma UnpaddedCredentialRefused()
    ensures CredentialField("Basic dTpwYQ") == Some("dTpwYQ")
    ensures Attempt(Some("Basic dTpwYQ"), map["u" := "pa"]) == Err(UndecodableCredential)
  {
    var scheme, field := "Basic", "dTpwYQ";
    assert CredentialField("Basic dTpwYQ") == Some(field) by {
      assert ' ' !in scheme && ' ' !in field;
      FieldOfToken(scheme, field, "");
      assert "Basic dTpwYQ" == scheme + " " + field + "";
    }
    assert DecodeCredential(field) == None by {
      assert field[4..] == "YQ";
      assert Base64.Decode("YQ") == None;
    }
  }
}
