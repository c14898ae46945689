/** How the client's bearer header and the server's access-token extractor fit
    together. HTTP header names are case-insensitive, so the client's
    `Authorization` arrives as the server's `authorization`. */
module EndToEnd {
  import opened Wrappers
  import opened Json
  import FetchHeaders
  import Text
  import ApiClient
  import AccessStrategy

  /** The header value the client sends when the caller sets no `Authorization`. */
  function SentAuthorization(token: string, callerHeaders: ApiClient.Headers): JsValue {
    Property(ApiClient.WithAuthorization(token, callerHeaders), ApiClient.AuthorizationHeader)
  }

  /** The `Authorization` value the server receives: the header the client
      builds, turned into a string and normalised by `Headers`; `None` when
      `Headers` throws and the request is never sent. */
  function ReceivedAuthorization(token: string, callerHeaders: ApiClient.Headers): Option<string> {
    FetchHeaders.Normalise(ToJsString(SentAuthorization(token, callerHeaders)))
  }

  /** A stored token with no HTTP whitespace and no NUL reaches the server
      intact, and the extractor reads exactly that token. */
  lemma StoredTokenReachesServer(token: string, callerHeaders: ApiClient.Headers)
    requires DistinctKeys(callerHeaders) && !HasKey(callerHeaders, ApiClient.AuthorizationHeader)
    requires token != ""
    requires forall i :: 0 <= i < |token| ==>
               !FetchHeaders.IsHttpWhitespace(token[i]) && !FetchHeaders.IsForbidden(token[i])
    ensures ReceivedAuthorization(token, callerHeaders) == Some("Bearer " + token)
    ensures AccessStrategy.ExtractAccessToken(Str("Bearer " + token), Undefined, Undefined)
            == AccessStrategy.Token(token)
  {
    ApiClient.AuthorizationHeaderValue(token, callerHeaders, ApiClient.AuthorizationHeader);
    var v := "Bearer " + token;
    assert FetchHeaders.IsHeaderValue(v) by {
      assert v[|v| - 1] == token[|token| - 1];
      forall i | 0 <= i < |v| ensures !FetchHeaders.IsForbidden(v[i]) {
        if i >= 7 { assert v[i] == token[i - 7]; }
      }
    }
    FetchHeaders.NormaliseFixesExactlyHeaderValues(v);
    assert !Text.Contains(token, " ") by {
      Text.ContainsIff(token, " ");
      forall k | 0 <= k <= |token| - 1 ensures !Text.OccursAt(token, " ", k) {
        assert token[k..k + 1][0] == token[k];
      }
    }
    AccessStrategy.BearerHeaderRoundTrip(token);
  }

  /** A token with a line break, carriage return or NUL inside makes `Headers`
      throw, so the request is never sent. */
  lemma BrokenTokenIsNeverSent(a: string, c: char, b: string, callerHeaders: ApiClient.Headers)
    requires DistinctKeys(callerHeaders) && !HasKey(callerHeaders, ApiClient.AuthorizationHeader)
    requires FetchHeaders.IsForbidden(c) && |b| > 0 && !FetchHeaders.IsHttpWhitespace(b[|b| - 1])
    ensures ReceivedAuthorization(a + [c] + b, callerHeaders).None?
  {
    ApiClient.AuthorizationHeaderValue(a + [c] + b, callerHeaders, ApiClient.AuthorizationHeader);
    assert "Bearer " + (a + [c] + b) == ("Bearer " + a) + [c] + b;
    FetchHeaders.InnerForbiddenThrows("Bearer " + a, c, b);
  }

  /** Before login the store is empty and the client builds `Bearer `, which
      arrives as `Bearer`. Being present, that header takes precedence over any
      access-token cookie, yet the server reads no token from it. */
  lemma EmptyStoreSendsNoToken(callerHeaders: ApiClient.Headers, signed: JsValue, plain: JsValue)
    requires DistinctKeys(callerHeaders) && !HasKey(callerHeaders, ApiClient.AuthorizationHeader)
    ensures SentAuthorization("", callerHeaders) == Str("Bearer ")
    ensures ReceivedAuthorization("", callerHeaders) == Some("Bearer")
    ensures AccessStrategy.ExtractAccessToken(Str("Bearer"), signed, plain) == AccessStrategy.NoToken
  {
    ApiClient.AuthorizationHeaderValue("", callerHeaders, ApiClient.AuthorizationHeader);
    assert SentAuthorization("", callerHeaders) == Str("Bearer ");
    assert ToJsString(Str("Bearer ")) == "Bearer ";
    EmptyBearerArrivesBare();
    AccessStrategy.BareBearerGivesNoToken();
    AccessStrategy.SourcePrecedence(Str("Bearer"), signed, plain);
  }

  /** `Headers` cuts the space after a bare scheme. */
  lemma EmptyBearerArrivesBare()
    ensures FetchHeaders.Normalise("Bearer ") == Some("Bearer")
  {
    assert FetchHeaders.IsHeaderValue("Bearer");
    assert "Bearer " == "Bearer" + [' '];
    FetchHeaders.TrailingWhitespaceIsCut("Bearer", ' ');
  }
}
