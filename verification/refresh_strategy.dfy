/** The refresh-token strategy of the API server: where the refresh token is
    read from (the `rt` cookie), how a `Bearer ` prefix is stripped from it, and
    the check that it is the token stored on the account. Signature and expiry
    checks of the token itself belong to the JWT library and are not modelled. */
module RefreshStrategy {
  import opened Wrappers
  import opened Json
  import Text
  import MongooseIds

  /** The name of the refresh-token cookie. */
  const RefreshTokenCookieKey: string := "rt"

  /** The cookie value used: outside development only the signed cookie counts;
      in development an absent signed cookie falls back to the plain one. */
  function PickCookie(signed: JsValue, plain: JsValue, isDev: bool): (v: JsValue)
    ensures !isDev ==> v == signed
    ensures isDev && !IsNullish(signed) ==> v == signed
    ensures isDev && IsNullish(signed) ==> v == plain
  {
    if !isDev then signed else if IsNullish(signed) then plain else signed
  }

  /** The text after the first `Bearer`, up to the next `Bearer` if any: the
      second piece of `split('Bearer')`. */
  function BearerSegment(text: string): string
    requires Text.Contains(text, "Bearer")
  {
    Text.Split(text, "Bearer")[1]
  }

  /** The token as the extractor computes it: the chosen cookie turned into a
      string, the part after `Bearer` when the word occurs, trimmed. */
  function ExtractRefreshToken(signed: JsValue, plain: JsValue, isDev: bool): (token: string)
    ensures Text.IsTrimmed(token)
  {
    var text := ToJsString(PickCookie(signed, plain, isDev));
    Text.Trim(if Text.Contains(text, "Bearer") then BearerSegment(text) else text)
  }

  /** The piece `split` yields after the first separator is the text between the
      first and the second occurrence, or the rest of the string when there is no
      second one. */
  lemma BearerSegmentBetweenOccurrences(text: string)
    requires Text.Contains(text, "Bearer")
    ensures var i := Text.IndexOf(text, "Bearer").value;
            var rest := text[i + 6..];
            BearerSegment(text) == match Text.IndexOf(rest, "Bearer")
                                   case None => rest
                                   case Some(j) => rest[..j]
  {
    Text.SplitSecondPiece(text, "Bearer");
  }

  /** Outside development the plain cookie is never looked at. */
  lemma ProductionIgnoresPlainCookie(signed: JsValue, plain1: JsValue, plain2: JsValue)
    ensures ExtractRefreshToken(signed, plain1, false) == ExtractRefreshToken(signed, plain2, false)
  {
  }

  /** Without any cookie the extractor produces the text `undefined`. */
  lemma MissingCookieReadsUndefined(isDev: bool)
    ensures ExtractRefreshToken(Undefined, Undefined, isDev) == "undefined"
  {
    Text.AbsentLeadCharNotContained("undefined", "Bearer");
    Text.TrimOfTrimmed("undefined");
  }

  /** The cookie the login endpoint sets, `Bearer <token>`, yields everything
      after the word when the token does not repeat it. */
  lemma BearerPrefixSegment(t: string)
    requires !Text.Contains(t, "Bearer")
    ensures Text.Contains("Bearer " + t, "Bearer")
    ensures BearerSegment("Bearer " + t) == " " + t
  {
    var s := "Bearer " + t;
    assert Text.OccursAt(s, "Bearer", 0) by { assert s[0..6] == "Bearer"; }
    assert Text.IndexOf(s, "Bearer") == Some(0);
    assert s[6..] == " " + t;
    SpaceThenAbsent(t);
    BearerSegmentBetweenOccurrences(s);
  }

  /** A leading space cannot complete an occurrence of `Bearer`. */
  lemma SpaceThenAbsent(t: string)
    requires !Text.Contains(t, "Bearer")
    ensures !Text.Contains(" " + t, "Bearer")
  {
    var rest := " " + t;
    if Text.Contains(rest, "Bearer") {
      var k := Text.IndexOf(rest, "Bearer").value;
      assert rest[k..k + 6][0] == rest[k];
      assert k >= 1;
      assert t[k - 1..k - 1 + 6] == rest[k..k + 6];
      assert Text.OccursAt(t, "Bearer", k - 1);
      Text.ContainsIff(t, "Bearer");
    }
  }

  /** A token with no whitespace around it and no `Bearer` inside is read back
      exactly from a cookie that holds it bare. */
  lemma BareCookieRoundTrip(t: string, isDev: bool)
    requires Text.IsTrimmed(t) && !Text.Contains(t, "Bearer")
    ensures ExtractRefreshToken(Str(t), Undefined, isDev) == t
  {
    assert ToJsString(PickCookie(Str(t), Undefined, isDev)) == t;
    Text.TrimOfTrimmed(t);
  }

  /** ... and from a cookie that holds it after `Bearer `, as the login endpoint
      writes it. */
  lemma BearerCookieRoundTrip(t: string, isDev: bool)
    requires Text.IsTrimmed(t) && !Text.Contains(t, "Bearer")
    ensures ExtractRefreshToken(Str("Bearer " + t), Undefined, isDev) == t
  {
    var s := "Bearer " + t;
    assert ToJsString(PickCookie(Str(s), Undefined, isDev)) == s;
    BearerPrefixSegment(t);
    Text.TrimSkipsLeadingWhitespace(' ', t);
    Text.TrimOfTrimmed(t);
  }

  datatype Role = Admin | Basic

  /** The fields of an account the strategy reads. A new account starts with an
      empty refresh token. */
  datatype Account = Account(id: MongooseIds.ObjectId, role: Role, refreshToken: string)

  /** What `validate` writes into `request.user`. */
  datatype RequestUser = RequestUser(id: string, role: Role)

  /** `validate`: the account named by the token payload, looked up beforehand
      (`None` when it does not exist), passes exactly when its stored refresh
      token equals the token in the cookie. */
  function ValidateRefresh(signed: JsValue, plain: JsValue, isDev: bool, account: Option<Account>)
    : (user: Option<RequestUser>)
    ensures user.Some? <==>
              account.Some? && account.value.refreshToken == ExtractRefreshToken(signed, plain, isDev)
    ensures user.Some? ==>
              user.value == RequestUser(MongooseIds.ToHexString(account.value.id), account.value.role)
  {
    if account.None? then None
    else
      var token := ExtractRefreshToken(signed, plain, isDev);
      if account.value.refreshToken == token then
        Some(RequestUser(MongooseIds.ToHexString(account.value.id), account.value.role))
      else None
  }

  /** An account that never logged in (empty stored token) is only matched by a
      cookie that extracts to the empty string, which the JWT library rejects as
      a missing token before `validate` runs. */
  lemma FreshAccountNeedsEmptyToken(signed: JsValue, plain: JsValue, isDev: bool, account: Account)
    requires account.refreshToken == ""
    ensures ValidateRefresh(signed, plain, isDev, Some(account)).Some?
            <==> ExtractRefreshToken(signed, plain, isDev) == ""
  {
  }

  /** The token the login endpoint stores and sets as the cookie `Bearer <token>`
      passes `validate`. */
  lemma LoginCookieValidates(t: string, isDev: bool, account: Account)
    requires Text.IsTrimmed(t) && !Text.Contains(t, "Bearer")
    requires account.refreshToken == t
    ensures ValidateRefresh(Str("Bearer " + t), Undefined, isDev, Some(account))
            == Some(RequestUser(MongooseIds.ToHexString(account.id), account.role))
  {
    BearerCookieRoundTrip(t, isDev);
  }
}
