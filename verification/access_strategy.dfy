/** The access-token strategy of the API server: the token is the second
    space-separated field of the `authorization` header, or of the cookie of that
    name when there is no header. Signature and expiry checks belong to the JWT
    library and are not modelled; `validate` hands the payload on unchanged. */
module AccessStrategy {
  import opened Wrappers
  import opened Json
  import Text
  import Schema

  /** The header (and cookie) name the access token travels in. */
  const TokenHeaderKey: string := "authorization"

  /** What the extractor gives the JWT library. */
  datatype Extracted =
    | Token(text: string)  // a token to verify
    | NoToken              // `null`: the request carries no token
    | TypeFailure          // the chosen value is not a string, so `split` throws

  /** `header ?? signedCookie ?? cookie ?? ''`. */
  function ChooseSource(header: JsValue, signed: JsValue, plain: JsValue): (v: JsValue)
    ensures !IsNullish(header) ==> v == header
    ensures IsNullish(header) && !IsNullish(signed) ==> v == signed
    ensures IsNullish(header) && IsNullish(signed) && !IsNullish(plain) ==> v == plain
    ensures IsNullish(header) && IsNullish(signed) && IsNullish(plain) ==> v == Str("")
  {
    if !IsNullish(header) then header
    else if !IsNullish(signed) then signed
    else if !IsNullish(plain) then plain
    else Str("")
  }

  /** The extractor: split the chosen text on single spaces and take the second
      field; a missing or empty second field means no token. The first field is
      never looked at. */
  function ExtractAccessToken(header: JsValue, signed: JsValue, plain: JsValue): (r: Extracted)
    ensures r == TypeFailure <==> !ChooseSource(header, signed, plain).Str?
    ensures r.Token? ==> r.text != "" && !Text.Contains(r.text, " ")
    ensures r.Token? <==>
              var v := ChooseSource(header, signed, plain);
              v.Str? && |Text.Split(v.s, " ")| >= 2 && Text.Split(v.s, " ")[1] != ""
  {
    var v := ChooseSource(header, signed, plain);
    if !v.Str? then TypeFailure
    else
      var fields := Text.Split(v.s, " ");
      if |fields| < 2 || fields[1] == "" then NoToken
      else
        Text.SplitPiecesAvoidSeparator(v.s, " ");
        assert fields[1] in fields;
        Token(fields[1])
  }

  /** The token is the text after the first space, up to the next space, and
      there is one exactly when that text is not empty. */
  lemma TokenAfterFirstSpace(h: string)
    ensures ExtractAccessToken(Str(h), Undefined, Undefined).Token? <==>
              Text.Contains(h, " ") && SecondField(h) != ""
    ensures ExtractAccessToken(Str(h), Undefined, Undefined).Token? ==>
              ExtractAccessToken(Str(h), Undefined, Undefined).text == SecondField(h)
  {
    if Text.Contains(h, " ") {
      Text.SplitSecondPiece(h, " ");
    }
  }

  /** The field after the first space: everything up to the next space, which is
      the second piece `split(' ')` gives and holds no space. */
  function SecondField(h: string): (r: string)
    requires Text.Contains(h, " ")
    ensures r == Text.Split(h, " ")[1]
    ensures !Text.Contains(r, " ")
  {
    Text.SplitSecondPiece(h, " ");
    Text.SplitPiecesAvoidSeparator(h, " ");
    var rest := h[Text.IndexOf(h, " ").value + 1..];
    match Text.IndexOf(rest, " ")
    case None => rest
    case Some(j) => rest[..j]
  }

  /** A header that is present decides, whatever the cookies say; without one
      the signed cookie decides, then the plain one. */
  lemma SourcePrecedence(header: JsValue, signed: JsValue, plain: JsValue)
    ensures !IsNullish(header) ==>
              ExtractAccessToken(header, signed, plain) == ExtractAccessToken(header, Undefined, Undefined)
    ensures IsNullish(header) && !IsNullish(signed) ==>
              ExtractAccessToken(header, signed, plain) == ExtractAccessToken(signed, Undefined, Undefined)
    ensures IsNullish(header) && IsNullish(signed) ==>
              ExtractAccessToken(header, signed, plain) == ExtractAccessToken(plain, Undefined, Undefined)
  {
    if !IsNullish(header) {
      SameSourceSameResult(header, signed, plain, header, Undefined, Undefined);
    } else if !IsNullish(signed) {
      SameSourceSameResult(header, signed, plain, signed, Undefined, Undefined);
    } else {
      SameSourceSameResult(header, signed, plain, plain, Undefined, Undefined);
    }
  }

  /** The result depends only on the source the `??` chain picks. */
  lemma SameSourceSameResult(h1: JsValue, s1: JsValue, p1: JsValue, h2: JsValue, s2: JsValue, p2: JsValue)
    requires ChooseSource(h1, s1, p1) == ChooseSource(h2, s2, p2)
    ensures ExtractAccessToken(h1, s1, p1) == ExtractAccessToken(h2, s2, p2)
  {
  }

  /** No header and no cookie: no token (the empty string has one field). */
  lemma NothingGivesNoToken()
    ensures ExtractAccessToken(Undefined, Null, Undefined) == NoToken
  {
    assert !Text.Contains("", " ");
  }

  /** A cookie whose signature does not check out reads as `false`; with no header
      that reaches `split` and throws. */
  lemma BadlySignedCookieThrows(plain: JsValue)
    ensures ExtractAccessToken(Undefined, Bool(false), plain) == TypeFailure
  {
  }

  /** `Bearer <token>` with a token that is neither empty nor contains a space
      gives that token back. */
  lemma BearerHeaderRoundTrip(t: string)
    requires t != "" && !Text.Contains(t, " ")
    ensures ExtractAccessToken(Str("Bearer " + t), Undefined, Undefined) == Token(t)
  {
    Text.AbsentLeadCharNotContained("Bearer", " ");
    assert Text.Join(["Bearer", t], " ") == "Bearer " + t;
    Text.SplitJoinSingleChar(["Bearer", t], " ");
  }

  /** The scheme word is not checked: any first field is accepted. */
  lemma SchemeIsIgnored(scheme: string, t: string)
    requires !Text.Contains(scheme, " ") && t != "" && !Text.Contains(t, " ")
    ensures ExtractAccessToken(Str(scheme + " " + t), Undefined, Undefined) == Token(t)
  {
    assert Text.Join([scheme, t], " ") == scheme + " " + t;
    Text.SplitJoinSingleChar([scheme, t], " ");
  }

  /** `Bearer` alone, or followed by two spaces, carries no token. */
  lemma BareSchemeGivesNoToken(t: string)
    requires !Text.Contains(t, " ")
    ensures ExtractAccessToken(Str("Bearer"), Undefined, Undefined) == NoToken
    ensures ExtractAccessToken(Str("Bearer  " + t), Undefined, Undefined) == NoToken
  {
    BareBearerGivesNoToken();
    DoubleSpaceGivesNoToken(t);
  }

  /** `Bearer` alone has no second field. */
  lemma BareBearerGivesNoToken()
    ensures ExtractAccessToken(Str("Bearer"), Undefined, Undefined) == NoToken
  {
    Text.AbsentLeadCharNotContained("Bearer", " ");
  }

  /** `Bearer ` with nothing after the space has an empty second field; being a
      string, it is read whatever the cookies hold. */
  lemma EmptyBearerGivesNoToken(signed: JsValue, plain: JsValue)
    ensures ExtractAccessToken(Str("Bearer "), signed, plain) == NoToken
  {
    Text.AbsentLeadCharNotContained("Bearer", " ");
    Text.AbsentLeadCharNotContained("", " ");
    assert Text.Join(["Bearer", ""], " ") == "Bearer ";
    Text.SplitJoinSingleChar(["Bearer", ""], " ");
  }

  /** Two spaces after the scheme make the second field empty. */
  lemma DoubleSpaceGivesNoToken(t: string)
    requires !Text.Contains(t, " ")
    ensures ExtractAccessToken(Str("Bearer  " + t), Undefined, Undefined) == NoToken
  {
    Text.AbsentLeadCharNotContained("Bearer", " ");
    assert !Text.Contains("", " ");
    assert ["Bearer", "", t][1..] == ["", t];
    assert ["", t][1..] == [t];
    assert Text.Join(["", t], " ") == " " + t;
    assert Text.Join(["Bearer", "", t], " ") == "Bearer  " + t;
    Text.SplitJoinSingleChar(["Bearer", "", t], " ");
  }

  /** The header check of the shared API contract (starts with `Bearer`) and
      this extractor do not agree: the contract lets `Bearer` through although it
      carries no token, and turns `Basic <token>` away although the extractor
      would take the token. */
  lemma ContractHeaderCheckDiffers(t: string)
    requires t != "" && !Text.Contains(t, " ")
    ensures Schema.BearerHeaderAccepts(Str("Bearer"))
    ensures ExtractAccessToken(Str("Bearer"), Undefined, Undefined) == NoToken
    ensures !Schema.BearerHeaderAccepts(Str("Basic " + t))
    ensures ExtractAccessToken(Str("Basic " + t), Undefined, Undefined) == Token(t)
  {
    ContractAcceptsBareScheme(t);
    ContractRefusesOtherScheme(t);
  }

  /** `Bearer` alone passes the contract's check and yields no token. */
  lemma ContractAcceptsBareScheme(t: string)
    requires !Text.Contains(t, " ")
    ensures Schema.BearerHeaderAccepts(Str("Bearer"))
    ensures ExtractAccessToken(Str("Bearer"), Undefined, Undefined) == NoToken
  {
    BareSchemeGivesNoToken(t);
  }

  /** `Basic <t>` fails the contract's check, yet the extractor takes t. */
  lemma ContractRefusesOtherScheme(t: string)
    requires t != "" && !Text.Contains(t, " ")
    ensures !Schema.BearerHeaderAccepts(Str("Basic " + t))
    ensures ExtractAccessToken(Str("Basic " + t), Undefined, Undefined) == Token(t)
  {
    Text.AbsentLeadCharNotContained("Basic", " ");
    SchemeIsIgnored("Basic", t);
    assert "Basic" + " " + t == "Basic " + t;
    assert ("Basic " + t)[0] == 'B' && ("Basic " + t)[1] == 'a';
  }
}
