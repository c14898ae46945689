/** The client wrappers of the admin web app: every request gets an
    `Authorization: Bearer <token>` header from the token store unless the
    caller sets one; the auto-refresh client answers a 401 by refreshing the
    access token once and sending the request again; `requestWithAutoThrow`
    turns an error status into a throw. The server is a parameter: `fetch`
    gives the response for the headers a request is sent with. */
module ApiClient {
  import opened Wrappers
  import opened Json
  import Text
  import AuthStore
  import UserStore

  type Headers = seq<(string, JsValue)>

  /** `{ ...base, ...over }`: the properties of `base` in their order, each
      replaced by the value in `over` when `over` has it, followed by the
      properties only `over` has. */
  function Spread(base: Headers, over: Headers): (r: Headers)
    ensures forall k :: HasKey(r, k) <==> HasKey(base, k) || HasKey(over, k)
  {
    var kept := seq(|base|, i requires 0 <= i < |base| =>
                      (base[i].0, if HasKey(over, base[i].0) then Get(over, base[i].0) else base[i].1));
    var added := FilterNew(over, base);
    assert forall k :: HasKey(kept, k) <==> HasKey(base, k) by {
      forall k ensures HasKey(kept, k) <==> HasKey(base, k) {
        if HasKey(base, k) {
          var i :| 0 <= i < |base| && base[i].0 == k;
          assert kept[i].0 == k;
        }
      }
    }
    HasKeyConcat(kept, added);
    kept + added
  }

  /** The properties of `over` whose names `base` does not have. */
  function FilterNew(over: Headers, base: Headers): (r: Headers)
    ensures forall k :: HasKey(r, k) <==> HasKey(over, k) && !HasKey(base, k)
  {
    if |over| == 0 then []
    else
      var rest := FilterNew(over[1..], base);
      assert forall k :: HasKey(over, k) <==> over[0].0 == k || HasKey(over[1..], k) by {
        forall k ensures HasKey(over, k) <==> over[0].0 == k || HasKey(over[1..], k) {
          if HasKey(over, k) && over[0].0 != k {
            var i :| 0 <= i < |over| && over[i].0 == k;
            assert over[1..][i - 1].0 == k;
          }
        }
      }
      if HasKey(base, over[0].0) then rest
      else
        HasKeyConcat([over[0]], rest);
        assert forall k :: HasKey([over[0]], k) <==> over[0].0 == k by {
          assert [over[0]][0].0 == over[0].0;
        }
        [over[0]] + rest
  }

  lemma HasKeyConcat(a: Headers, b: Headers)
    ensures forall k :: HasKey(a + b, k) <==> HasKey(a, k) || HasKey(b, k)
  {
    forall k ensures HasKey(a + b, k) ==> HasKey(a, k) || HasKey(b, k) {
      if HasKey(a + b, k) {
        var i :| 0 <= i < |a + b| && (a + b)[i].0 == k;
        if i >= |a| { assert b[i - |a|].0 == k; }
      }
    }
    forall k ensures HasKey(a, k) ==> HasKey(a + b, k) {
      if HasKey(a, k) {
        var i :| 0 <= i < |a| && a[i].0 == k;
        assert (a + b)[i].0 == k;
      }
    }
    forall k ensures HasKey(b, k) ==> HasKey(a + b, k) {
      if HasKey(b, k) {
        var i :| 0 <= i < |b| && b[i].0 == k;
        assert (a + b)[|a| + i].0 == k;
      }
    }
  }

  /** Reading a property of a spread: `over` wins, `base` fills in. */
  lemma SpreadLookup(base: Headers, over: Headers, k: string)
    requires DistinctKeys(over)
    ensures Property(Spread(base, over), k) ==
              if HasKey(over, k) then Get(over, k) else Property(base, k)
  {
    var kept := seq(|base|, i requires 0 <= i < |base| =>
                      (base[i].0, if HasKey(over, base[i].0) then Get(over, base[i].0) else base[i].1));
    var added := FilterNew(over, base);
    var r := Spread(base, over);
    assert r == kept + added;
    if HasKey(base, k) {
      var i := KeyIndex(base, k);
      assert r[i].0 == k;
      forall j | 0 <= j < i ensures r[j].0 != k { assert r[j].0 == base[j].0; }
      assert KeyIndex(r, k) == i by { KeyIndexIsFirst(r, k, i); }
    } else if HasKey(over, k) {
      assert !HasKey(kept, k);
      var j := KeyIndex(added, k);
      forall m | 0 <= m < |kept| + j ensures r[m].0 != k {
        if m < |kept| { assert kept[m].0 == r[m].0; } else { assert r[m] == added[m - |kept|]; }
      }
      assert r[|kept| + j] == added[j];
      KeyIndexIsFirst(r, k, |kept| + j);
      FilterNewValue(over, base, k);
    }
  }

  /** A property `FilterNew` keeps carries the value it has in `over`. */
  lemma {:induction false} FilterNewValue(over: Headers, base: Headers, k: string)
    requires DistinctKeys(over) && HasKey(over, k) && !HasKey(base, k)
    ensures HasKey(FilterNew(over, base), k) && Get(FilterNew(over, base), k) == Get(over, k)
  {
    var r := FilterNew(over, base);
    if over[0].0 == k {
      assert KeyIndex(over, k) == 0;
      assert r[0] == over[0];
    } else {
      assert HasKey(over[1..], k) by {
        var i := KeyIndex(over, k);
        assert over[1..][i - 1].0 == k;
      }
      assert DistinctKeys(over[1..]) by {
        forall i, j | 0 <= i < j < |over[1..]| ensures over[1..][i].0 != over[1..][j].0 {
          assert over[1..][i] == over[i + 1] && over[1..][j] == over[j + 1];
        }
      }
      FilterNewValue(over[1..], base, k);
      var rest := FilterNew(over[1..], base);
      assert KeyIndex(over, k) == 1 + KeyIndex(over[1..], k);
      if !HasKey(base, over[0].0) {
        assert r == [over[0]] + rest;
        assert KeyIndex(r, k) == 1 + KeyIndex(rest, k);
      }
    }
  }

  /** A match with none before it is the one `KeyIndex` finds. */
  lemma KeyIndexIsFirst(entries: Headers, k: string, i: nat)
    requires i < |entries| && entries[i].0 == k
    requires forall j :: 0 <= j < i ==> entries[j].0 != k
    ensures HasKey(entries, k) && KeyIndex(entries, k) == i
  {
  }

  /** The header name the wrappers write. */
  const AuthorizationHeader: string := "Authorization"

  /** The headers a request is sent with: the bearer header from the given
      token, overridden by whatever the caller passed. */
  function WithAuthorization(token: string, callerHeaders: Headers): (h: Headers)
    ensures forall k :: HasKey(h, k) <==> k == AuthorizationHeader || HasKey(callerHeaders, k)
  {
    assert [(AuthorizationHeader, Str("Bearer " + token))][0].0 == AuthorizationHeader;
    Spread([(AuthorizationHeader, Str("Bearer " + token))], callerHeaders)
  }

  /** The caller's own `Authorization` header wins over the store's token;
      without one the store's token is sent as a bearer token. Every other
      header is the caller's. */
  lemma AuthorizationHeaderValue(token: string, callerHeaders: Headers, k: string)
    requires DistinctKeys(callerHeaders)
    ensures var h := WithAuthorization(token, callerHeaders);
            Property(h, k) ==
              if HasKey(callerHeaders, k) then Get(callerHeaders, k)
              else if k == AuthorizationHeader then Str("Bearer " + token)
              else Undefined
  {
    var base := [(AuthorizationHeader, Str("Bearer " + token))];
    SpreadLookup(base, callerHeaders, k);
    assert base[0].0 == AuthorizationHeader;
  }

  /** The response of the refresh endpoint: its status, and the new access
      token it carries when the status is 200. */
  datatype RefreshResponse = RefreshResponse(status: int, accessToken: string)

  /** A request whose promise rejected (a network or transport failure): there
      is no answer, and the rejection reaches the caller. */
  datatype Rejection = Rejected

  /** What a request settles to: an answer, or a rejection. */
  type Outcome = Result<UserStore.Response, Rejection>

  /** What the server and the network settle a request to, given which attempt
      it is (0 for the first request, 1 for the retry) and its headers. The two
      attempts are separate requests: the retry can meet another answer, or a
      rejection, even when it carries the same headers as the first. */
  type Server = (nat, Headers) -> Outcome

  /** An answer with status 401. */
  predicate Unauthorized(o: Outcome) {
    o.Ok? && o.value.status == 401
  }

  /** What one call through the auto-refresh client did. */
  datatype Trace = Trace(
    sent: seq<Headers>,          // the requests sent, by their headers
    refreshed: bool,             // whether the refresh endpoint was called
    response: Outcome,           // what the caller gets back, or the rejection it sees
    after: UserStore.Session)    // the client state afterwards

  /** The token the retry carries: the refreshed one after a 200 from the
      refresh endpoint, the one read up front otherwise. */
  function RetryTokenOf(s: UserStore.Session, refresh: RefreshResponse): string {
    if refresh.status == 200 then refresh.accessToken else s.auth.accessToken
  }

  /** The auto-refresh request flow. The token is read once up front; a 401
      triggers one refresh call, a 200 from it stores the new token, the request
      is sent again with the new token (or the old one when the refresh failed),
      and a second 401 clears the user store. A rejected request or refresh
      rejects the call at once: nothing after it is done and nothing is cleared. */
  function AutoRefreshCall(s: UserStore.Session, callerHeaders: Headers,
                           fetch: Server, refresh: Result<RefreshResponse, Rejection>)
    : (t: Trace)
    ensures 1 <= |t.sent| <= 2
    ensures t.sent[0] == WithAuthorization(s.auth.accessToken, callerHeaders)
    ensures t.refreshed <==> Unauthorized(fetch(0, t.sent[0]))
    ensures |t.sent| == 2 <==> t.refreshed && refresh.Ok?
    ensures t.refreshed && refresh.Err? ==> t.response == Err(Rejected)
    ensures !(t.refreshed && refresh.Err?) ==> t.response == fetch(|t.sent| - 1, t.sent[|t.sent| - 1])
  {
    var first := WithAuthorization(s.auth.accessToken, callerHeaders);
    var res := fetch(0, first);
    if !Unauthorized(res) then Trace([first], false, res, s)
    else
      match refresh
      case Err(_) => Trace([first], true, Err(Rejected), s)
      case Ok(rr) =>
        var refreshedSession :=
          if rr.status == 200 then UserStore.Session(AuthStore.SetAccessToken(s.auth, rr.accessToken), s.user)
          else s;
        var second := WithAuthorization(RetryTokenOf(s, rr), callerHeaders);
        var retried := fetch(1, second);
        var after := if Unauthorized(retried) then UserStore.Clear(refreshedSession) else refreshedSession;
        Trace([first, second], true, retried, after)
  }

  /** Any outcome of the first request other than a 401, a rejection included,
      is handed back as it is, with nothing else done. */
  lemma PassThroughUnlessUnauthorized(s: UserStore.Session, callerHeaders: Headers,
                                      fetch: Server, refresh: Result<RefreshResponse, Rejection>)
    requires !Unauthorized(fetch(0, WithAuthorization(s.auth.accessToken, callerHeaders)))
    ensures var t := AutoRefreshCall(s, callerHeaders, fetch, refresh);
            && t.response == fetch(0, WithAuthorization(s.auth.accessToken, callerHeaders))
            && !t.refreshed && t.after == s
  {
  }

  /** After a 401 and an answered refresh, the retry carries the refreshed token
      when the refresh succeeded, which is then also the stored token; when it
      failed, the retry repeats the old token and the store is not written. */
  lemma RetryToken(s: UserStore.Session, callerHeaders: Headers,
                   fetch: Server, refresh: RefreshResponse)
    requires Unauthorized(fetch(0, WithAuthorization(s.auth.accessToken, callerHeaders)))
    ensures var t := AutoRefreshCall(s, callerHeaders, fetch, Ok(refresh));
            t.sent[1] == WithAuthorization(if refresh.status == 200 then refresh.accessToken
                                           else s.auth.accessToken, callerHeaders)
    ensures var t := AutoRefreshCall(s, callerHeaders, fetch, Ok(refresh));
            !Unauthorized(t.response) ==>
              t.after.user == s.user
              && t.after.auth.accessToken == if refresh.status == 200 then refresh.accessToken
                                             else s.auth.accessToken
  {
  }

  /** A second 401 signs the user out on the client; any other outcome, a
      rejection included, keeps the profile. */
  lemma SecondUnauthorizedClears(s: UserStore.Session, callerHeaders: Headers,
                                 fetch: Server, refresh: Result<RefreshResponse, Rejection>)
    ensures var t := AutoRefreshCall(s, callerHeaders, fetch, refresh);
            (t.refreshed && Unauthorized(t.response))
            <==> (t.after == UserStore.Start && |t.sent| == 2 && Unauthorized(t.response))
    ensures var t := AutoRefreshCall(s, callerHeaders, fetch, refresh);
            !Unauthorized(t.response) ==> t.after.user == s.user
  {
  }

  /** A rejection reaches the caller and ends the call: a rejected first request
      is not retried, a rejected refresh sends nothing more and stores nothing,
      and no rejection clears the session. */
  lemma RejectionPropagates(s: UserStore.Session, callerHeaders: Headers,
                            fetch: Server, refresh: Result<RefreshResponse, Rejection>)
    ensures var t := AutoRefreshCall(s, callerHeaders, fetch, refresh);
            fetch(0, t.sent[0]).Err? ==> t.response.Err? && !t.refreshed && |t.sent| == 1 && t.after == s
    ensures var t := AutoRefreshCall(s, callerHeaders, fetch, refresh);
            t.refreshed && refresh.Err? ==> t.response.Err? && |t.sent| == 1 && t.after == s
    ensures var t := AutoRefreshCall(s, callerHeaders, fetch, refresh);
            t.response.Err? ==> t.after.user == s.user
  {
  }

  /** When the refresh stores a new token and the retry then rejects, the caller
      sees the rejection while the new token stays stored. */
  lemma RejectedRetryKeepsNewToken(s: UserStore.Session, callerHeaders: Headers,
                                   fetch: Server, newToken: string)
    requires Unauthorized(fetch(0, WithAuthorization(s.auth.accessToken, callerHeaders)))
    requires fetch(1, WithAuthorization(newToken, callerHeaders)).Err?
    ensures var t := AutoRefreshCall(s, callerHeaders, fetch, Ok(RefreshResponse(200, newToken)));
            t.response.Err? && t.after == UserStore.Session(AuthStore.Store(newToken), s.user)
  {
  }

  /** When the refresh call is answered with anything but 200, the retry repeats
      the first request's headers; if it is then rejected, the caller sees the
      rejection and the session is left as it was: nothing stored, nothing
      cleared. */
  lemma RejectedRetryAfterFailedRefresh(s: UserStore.Session, callerHeaders: Headers,
                                        fetch: Server, refresh: RefreshResponse)
    requires refresh.status != 200
    requires Unauthorized(fetch(0, WithAuthorization(s.auth.accessToken, callerHeaders)))
    requires fetch(1, WithAuthorization(s.auth.accessToken, callerHeaders)).Err?
    ensures var t := AutoRefreshCall(s, callerHeaders, fetch, Ok(refresh));
            t.sent[1] == t.sent[0] && t.response.Err? && t.after == s
  {
  }

  /** A caller that sets its own `Authorization` sends the same headers both
      times, so a refresh cannot change what the retry presents. */
  lemma CallerAuthorizationDefeatsRefresh(s: UserStore.Session, callerHeaders: Headers,
                                          fetch: Server, refresh: RefreshResponse)
    requires DistinctKeys(callerHeaders) && HasKey(callerHeaders, AuthorizationHeader)
    requires Unauthorized(fetch(0, WithAuthorization(s.auth.accessToken, callerHeaders)))
    ensures var t := AutoRefreshCall(s, callerHeaders, fetch, Ok(refresh));
            Property(t.sent[1], AuthorizationHeader) == Property(t.sent[0], AuthorizationHeader)
                                                      == Get(callerHeaders, AuthorizationHeader)
  {
    AuthorizationHeaderValue(s.auth.accessToken, callerHeaders, AuthorizationHeader);
    AuthorizationHeaderValue(RetryTokenOf(s, refresh), callerHeaders, AuthorizationHeader);
  }

  /** `requestWithAutoThrow`: a status of 400 or above throws the body, anything
      else returns it. */
  function RequestWithAutoThrow(res: UserStore.Response): (r: Result<JsValue, JsValue>)
    ensures r.Err? <==> res.status >= 400
    ensures r.Ok? ==> r.value == res.body
    ensures r.Err? ==> r.error == res.body
  {
    if res.status >= 400 then Err(res.body) else Ok(res.body)
  }
}
