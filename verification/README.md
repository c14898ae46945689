# Auth, id and validation core of blog-ts-rest-practice, in Dafny

This project models the logic that the TypeScript monorepo shares between its
NestJS API server, its Vue admin front end and its shared package:

- **Document ids.** `simplifyToDocIdDeep` turns nested documents into their ids.
  `parseObjectId` turns id-like values into database ObjectIds through a 24-hex-digit codec.
- **Shared schemas.** The object-id pattern, the bearer-header check, the page-based
  paginated record, and the `toBoolean` coercion.
- **Form validation.** The `createRule` chain and the helpers `optional`, `notEmpty`,
  `isPositiveNumber`, `isPositiveNumberGreaterThan0` and `isDate`. `isDate` rests on a model
  of the JavaScript `Date` constructor's roll-over.
- **Server-side token extraction.** The access-token strategy reads the `authorization`
  header or cookie. The refresh-token strategy reads the `rt` cookie, strips `Bearer`,
  trims, and compares with the stored token.
- **Client-side session.** The access-token store and the user store (`login`, `clear`,
  `logout`). The API client adds a bearer header, retries once after refreshing on a 401,
  memoises clients on an order-independent key, and throws on error statuses.
- **Environment loading.** The `KEY=value` parser of the API server's `loadEnv`.

JavaScript values are a `JsValue` datatype. Objects are ordered property lists.
`String(v)`, `split`, `join`, `trim` and `indexOf` are modelled with their JavaScript meaning
in `text.dfy` and `json.dfy`. Servers, HTTP and the query cache are function parameters:
for example, `getSelf` maps the token sent to the response received.

One module per concern:

- `wrappers.dfy`, `text.dfy`, `json.dfy`: `Option`/`Result`, JavaScript string operations, and JavaScript values.
- `doc_id.dfy`: `simplifyToDocIdDeep`.
- `calendar.dfy`, `validator.dfy`: the form validators.
- `zod_util.dfy`, `schema.dfy`: the shared schemas.
- `object_id.dfy`: `parseObjectId` and the ObjectId hex codec.
- `refresh_strategy.dfy`, `access_strategy.dfy`: the two JWT strategies.
- `auth_store.dfy`, `user_store.dfy`: the two client stores.
- `api_client.dfy`, `memo_key.dfy`: the client wrappers and their memo key.
- `fetch_headers.dfy`: what the Fetch standard's `Headers` does to a header value before it is sent.
- `end_to_end.dfy`: how the client's header meets the server's extractor.
- `env_loader.dfy`: `loadEnv`.

## Model

| member | source | states |
|---|---|---|
| Text.Trim | apps/api-server/src/auth/strategy/jwt-refresh.strategy.ts:51 | `trim` returns an infix of its input with no whitespace at either end, and everything it cuts away is ECMAScript whitespace |
| Text.TrimIdempotent | apps/api-server/src/main.ts:34 | trimming twice is trimming once |
| Text.TrimSkipsLeadingWhitespace | apps/api-server/src/auth/strategy/jwt-refresh.strategy.ts:51 | a leading whitespace character does not change the trimmed text |
| Text.FindFrom | apps/api-server/src/auth/strategy/jwt-refresh.strategy.ts:48 | the search returns the first occurrence at or after the start, and no occurrence exists when it returns none |
| Text.ContainsIff | apps/api-server/src/auth/strategy/jwt-refresh.strategy.ts:48 | `includes` holds exactly when the separator occurs at some position |
| Text.Split | apps/api-server/src/auth/strategy/jwt.strategy.ts:39 | `split` returns at least one piece, and more than one exactly when the separator occurs |
| Text.JoinSplit | apps/api-server/src/main.ts:33-34 | joining the pieces of a split with the same separator restores the string |
| Text.SplitPiecesAvoidSeparator | apps/api-server/src/auth/strategy/jwt.strategy.ts:39 | no piece of a split contains the separator |
| Text.SplitJoinSingleChar | apps/api-server/src/auth/strategy/jwt.strategy.ts:39 | for a one-character separator, splitting undoes joining pieces that do not contain it |
| Text.SplitSecondPiece | apps/api-server/src/auth/strategy/jwt-refresh.strategy.ts:49 | the second piece of a split is the text between the first and the second occurrence |
| Text.NatToDecimal | apps/admin-web/src/common/validator.ts:85 | `String(n)` is non-empty, all digits, and has no leading zero unless n is 0 |
| Text.DecimalRoundTrip | apps/admin-web/src/common/validator.ts:126 | `Number(String(n))` is n |
| DocId.SimplifyToDocIdDeep | packages/shared/src/util/main.ts:36-91 | `null`, `undefined` and primitives come back unchanged; an array keeps its length; an object with `id` becomes that id; an id-less object keeps its property names in order |
| DocId.EntryValueIsSimplification | packages/shared/src/util/main.ts:64-87 | the per-property branches of an id-less object agree with simplifying the property's value on its own |
| DocId.SimplifyArrayElementwise | packages/shared/src/util/main.ts:51-54 | an array is simplified element by element |
| DocId.SimplifyObjectEntrywise | packages/shared/src/util/main.ts:62-90 | an id-less object keeps each name and simplifies each value |
| DocId.SimplifyFixpointIff | packages/shared/src/util/main.ts:36-91 | a value is left unchanged exactly when no object reachable through arrays and id-less objects has an `id` |
| DocId.SimplifyPreservesWellFormed | packages/shared/src/util/main.ts:62-90 | simplification never makes an object repeat a property name |
| DocId.EmptyContainersUnchanged | packages/shared/src/util/main.test.ts:94-99 | `{}`, `[]` and `{ a: {}, b: [] }` come back unchanged |
| DocId.RootIdExample | packages/shared/src/util/main.test.ts:13-16 | an object with a root `id` becomes that id |
| Calendar.RollDays | apps/admin-web/src/common/validator.ts:127 | day roll-over always lands on a real date, and a day that exists in its month stays where it is |
| Calendar.NewLocalDate | apps/admin-web/src/common/validator.ts:127 | `new Date(y, m, d)` always reads back as a real calendar date |
| Calendar.NewLocalDateRoundTripIff | apps/admin-web/src/common/validator.ts:127-133 | a date built from its own fields reads them back exactly when they name a real date in a year from 100 on |
| Validator.EvaluateFirstStop | apps/admin-web/src/common/validator.ts:55-78 | the first rule output that is a string, `undefined`, `false` or a throw settles the verdict; if none does, the value is accepted |
| Validator.Evaluate | apps/admin-web/src/common/validator.ts:55-78 | the chain accepts when no rule output stops it, and otherwise returns the verdict that one of the stopping outputs settles on |
| Validator.RunRules | apps/admin-web/src/common/validator.ts:53-79 | the loop calls rules in order, stops right after the first stopping rule with its verdict, and otherwise returns `true` |
| Validator.CreateRule | apps/admin-web/src/common/validator.ts:48-81 | `createRule` returns a one-element list whose function gives the rule chain's verdict on every value |
| Validator.Optional | apps/admin-web/src/common/validator.ts:96-113 | `optional` returns `undefined` exactly for `null`, `undefined`, `''` and `[]`, and `true` otherwise |
| Validator.NotEmpty | apps/admin-web/src/common/validator.ts:115-117 | `notEmpty` is false exactly for `null`, `undefined`, `''` and `[]` |
| Validator.IsOptional | apps/admin-web/src/common/validator.ts:96-102 | exactly `null`, `undefined`, `''` and `[]` count as empty |
| Validator.OptionalShortCircuit | apps/admin-web/src/common/validator.ts:109-113 | an empty value makes `optional` accept without consulting later rules; any other value passes through to them |
| Validator.OptionalNotEmptyComplement | apps/admin-web/src/common/validator.ts:114-117 | `optional` accepts early exactly when `notEmpty` fails |
| Validator.ThrownErrorIsShown | apps/admin-web/src/common/validator.ts:74-76 | a rule that throws ends the chain with the error's text, whatever the later rules say |
| Validator.OptionalDateRule | apps/admin-web/src/common/validator.test.ts:110-135 | `createRule([optional, isDate, ...more])` accepts an empty value, rejects a non-date with the message, and leaves a date to the later rules |
| Validator.ZerosThenNonZeroIff | apps/admin-web/src/common/validator.ts:84-86 | `/^0*[1-9]\d*$/` accepts exactly the digit strings that contain a non-zero digit |
| Validator.IsPositiveNumberGreaterThan0 | apps/admin-web/src/common/validator.ts:84-85 | the test accepts exactly what `isPositiveNumber` accepts that has a non-zero digit; on integers it holds exactly for n > 0 |
| Validator.IsPositiveNumber | apps/admin-web/src/common/validator.ts:89-90 | on integers the test holds exactly for n ≥ 0; `null`, `undefined`, `true` and `false` are refused |
| Validator.IsDate | apps/admin-web/src/common/validator.ts:120-136 | `isDate` holds exactly for `YYYY-MM-DD` strings that name a real date in a year from 100 on |
| Validator.DateFields | apps/admin-web/src/common/validator.ts:121-126 | a well-shaped date string's three numbers are the values of its digit groups |
| Validator.IsDateAcceptsNewYear | apps/admin-web/src/common/validator.test.ts:41-45 | `2024-01-01` is a date |
| Validator.IsDateAcceptsNewYearsEve | apps/admin-web/src/common/validator.test.ts:41-45 | `1999-12-31` is a date |
| Validator.IsDateAcceptsEndOfFebruary | apps/admin-web/src/common/validator.test.ts:44 | `2023-02-28`, the last day of February in a common year, is a date |
| Validator.IsDateAcceptsLeapDay | apps/admin-web/src/common/validator.ts:126-133 | the leap day `2024-02-29` is a date |
| Validator.IsDateRejectsImpossibleDates | apps/admin-web/src/common/validator.test.ts:47-54 | `2024-01-32` and `2024-13-01` are not dates |
| Validator.IsDateRejectsCommonYearLeapDay | apps/admin-web/src/common/validator.ts:129-133 | `2023-02-29` rolls over to March and is rejected |
| Validator.IsDateRejectsTwoDigitYears | apps/admin-web/src/common/validator.ts:126-133 | `0099-01-01` and `0000-06-15` are rejected because `Date` moves years 0 to 99 to the 1900s |
| Validator.IsDateRejectsOtherShapes | apps/admin-web/src/common/validator.test.ts:48-53 | `2024-1-1`, `2024/01/01`, `01-01-2024` and `not-a-date` are not dates |
| Validator.IsDateRejectsNumbers | apps/admin-web/src/common/validator.test.ts:59 | the number `12345`, written out as text, is not a date |
| Validator.IsDateRejectsNonStrings | apps/admin-web/src/common/validator.ts:120-124 | `null`, `undefined` and objects are not dates |
| ZodUtil.ToBooleanOnStrings | packages/shared/src/util/zod.ts:26-34 | a string is false exactly when it is `false`, `0`, `null` or `undefined` (so `''` and `FALSE` are true) |
| ZodUtil.ToBoolean | packages/shared/src/util/zod.ts:26-34 | after string coercion, `false`, 0, `null` and `undefined` are false, while `true` and any other number are true |
| Schema.ObjectIdSchemaRejects | packages/shared/src/common/schema.ts:4 | the object-id schema refuses any length but 24 and any capital hex digit |
| Schema.ObjectIdSchemaCoerces | packages/shared/src/common/schema.ts:4 | any value whose string form is 24 lower-case hex digits is accepted, a one-element array included |
| Schema.ObjectIdSchemaAccepts | packages/shared/src/common/schema.ts:4 | the object-id schema accepts exactly the values whose string form is the hex text of some 12-byte ObjectId |
| Schema.BearerHeaderExamples | packages/shared/src/common/schema.ts:19-22 | the header may be missing or a string starting with `Bearer`; `null` and `bearer …` are refused |
| Schema.BearerHeaderAccepts | packages/shared/src/common/schema.ts:19-22 | a missing header passes; a present header that is not a string is refused without coercion; a string passes exactly when its first `Bearer` is at its start |
| Schema.ParseEach | packages/shared/src/common/schema.ts:38 | an array parses exactly when every element does, element by element |
| Schema.ParsePaginated | packages/shared/src/common/schema.ts:33-40 | a page parses exactly when it is an object, its three counters coerce to numbers and its `data` is an array the element schema accepts; the fields are the coerced counters and the parsed elements |
| MongooseIds.CreateFromHexString | apps/api-server/src/common/utils/utils-mongoose.ts:42 | the hex decoder succeeds exactly on 24 hex digits and then yields 12 bytes |
| MongooseIds.ToHexString | apps/api-server/src/common/utils/utils-mongoose.ts:35 | an ObjectId's text is two lower-case hex digits per byte |
| MongooseIds.HexStringRoundTrip | apps/api-server/src/common/utils/utils-mongoose.ts:42 | decoding a 24-digit lower-case hex string and encoding it again gives the string back |
| MongooseIds.ObjectIdRoundTrip | apps/api-server/src/common/utils/utils-mongoose.ts:34-42 | encoding an ObjectId and decoding the text gives the same id back |
| MongooseIds.Convert | apps/api-server/src/common/utils/utils-mongoose.ts:22-43 | falsy elements and ObjectIds are kept; anything else is decoded from its id text, or the call throws with that text |
| MongooseIds.ConvertAll | apps/api-server/src/common/utils/utils-mongoose.ts:20-45 | an array converts exactly when every element does, element by element; otherwise the first failing element's error is raised |
| MongooseIds.ParseObjectId | apps/api-server/src/common/utils/utils-mongoose.ts:14-45 | one value gives one id and an array a list of ids of the same length; a failure is the error of the single value or of some element of the array |
| MongooseIds.OneIsFirstOfSingletonArray | apps/api-server/src/common/utils/utils-mongoose.ts:18-45 | a non-falsy value passed alone and the one-element array holding it succeed or fail together, with the same id or the same error |
| MongooseIds.FalsyPassesThrough | apps/api-server/src/common/utils/utils-mongoose.spec.ts:64-82 | a falsy argument, `undefined` and `null` included, is returned as it is |
| MongooseIds.ResultMirrorsArgument | apps/api-server/src/common/utils/utils-mongoose.ts:18-45 | one value gives one value, and an array gives an array of the same length converted element by element, with falsy elements kept |
| MongooseIds.ExistingObjectIdUnchanged | apps/api-server/src/common/utils/utils-mongoose.ts:27-29 | an ObjectId instance is returned unchanged |
| MongooseIds.HexStringParses | apps/api-server/src/common/utils/utils-mongoose.spec.ts:9-14 | a valid lower-case id string parses to an id whose hex form is that string |
| MongooseIds.IdFieldParses | apps/api-server/src/common/utils/utils-mongoose.ts:31-42 | a valid id string held in a plain object's `_id` parses to an id whose hex form is that string |
| MongooseIds.DocumentIdParses | apps/api-server/src/common/utils/utils-mongoose.ts:34-42 | an object whose `_id` is an ObjectId parses to an equal id |
| MongooseIds.InvalidTextThrows | apps/api-server/src/common/utils/utils-mongoose.ts:42 | non-empty text of the wrong length throws with that text |
| RefreshStrategy.PickCookie | apps/api-server/src/auth/strategy/jwt-refresh.strategy.ts:37-45 | outside development only the signed cookie is used; in development a missing signed cookie falls back to the plain one |
| RefreshStrategy.ExtractRefreshToken | apps/api-server/src/auth/strategy/jwt-refresh.strategy.ts:36-52 | the extracted refresh token never has whitespace at either end |
| RefreshStrategy.BearerSegmentBetweenOccurrences | apps/api-server/src/auth/strategy/jwt-refresh.strategy.ts:47-50 | the part taken is the text after the first `Bearer`, up to the next one if there is one |
| RefreshStrategy.ProductionIgnoresPlainCookie | apps/api-server/src/auth/strategy/jwt-refresh.strategy.ts:38-42 | outside development the plain cookie has no influence |
| RefreshStrategy.MissingCookieReadsUndefined | apps/api-server/src/auth/strategy/jwt-refresh.strategy.ts:46 | with no cookie at all the extractor yields the text `undefined` |
| RefreshStrategy.BearerPrefixSegment | apps/api-server/src/auth/strategy/jwt-refresh.strategy.ts:47-50 | for `Bearer <t>`, where t has no `Bearer`, the part taken is everything after the word |
| RefreshStrategy.BareCookieRoundTrip | apps/api-server/src/auth/auth.controller.ts:71-75 | the bare token the refresh endpoint writes into the cookie is read back exactly |
| RefreshStrategy.BearerCookieRoundTrip | apps/api-server/src/auth/auth.controller.ts:126-130 | the `Bearer <token>` cookie the login endpoint writes is read back as the token |
| RefreshStrategy.ValidateRefresh | apps/api-server/src/auth/strategy/jwt-refresh.strategy.ts:65-101 | `validate` passes exactly when the account exists and its stored token equals the extracted one, and then yields the account's id and role |
| RefreshStrategy.FreshAccountNeedsEmptyToken | apps/api-server/src/auth/strategy/jwt-refresh.strategy.ts:88-100 | an account with the default empty token matches only a cookie that extracts to the empty string |
| RefreshStrategy.LoginCookieValidates | apps/api-server/src/auth/strategy/jwt-refresh.strategy.ts:70-99 | the cookie the login endpoint sets passes `validate` for the account that stored its token |
| AccessStrategy.ChooseSource | apps/api-server/src/auth/strategy/jwt.strategy.ts:33-37 | header, then signed cookie, then plain cookie, then `''`, each taken when the ones before it are nullish |
| AccessStrategy.ExtractAccessToken | apps/api-server/src/auth/strategy/jwt.strategy.ts:32-45 | the extractor throws exactly on a non-string source; a token is returned exactly when the second space-separated field is non-empty, and it has no space |
| AccessStrategy.TokenAfterFirstSpace | apps/api-server/src/auth/strategy/jwt.strategy.ts:39-44 | the token is the text after the first space up to the next one, and exists exactly when that text is non-empty |
| AccessStrategy.SecondField | apps/api-server/src/auth/strategy/jwt.strategy.ts:39 | the field taken is the second piece that `split(' ')` gives, and it holds no space |
| AccessStrategy.SourcePrecedence | apps/api-server/src/auth/strategy/jwt.strategy.ts:33-37 | a present header decides whatever the cookies hold; without one the signed cookie decides, then the plain one |
| AccessStrategy.SameSourceSameResult | apps/api-server/src/auth/strategy/jwt.strategy.ts:33-42 | two requests whose `??` chains pick the same value get the same result |
| AccessStrategy.NothingGivesNoToken | apps/api-server/src/auth/strategy/jwt.strategy.ts:37-42 | no header and no cookie give no token |
| AccessStrategy.BadlySignedCookieThrows | apps/api-server/src/auth/strategy/jwt.strategy.ts:35-39 | a signed cookie that reads as `false` reaches `split` and throws |
| AccessStrategy.BearerHeaderRoundTrip | apps/api-server/src/auth/strategy/jwt.strategy.ts:39-44 | `Bearer <t>`, with t non-empty and without spaces, yields t |
| AccessStrategy.SchemeIsIgnored | apps/api-server/src/auth/strategy/jwt.strategy.ts:39 | the first field is never checked: any scheme word yields the token |
| AccessStrategy.BareSchemeGivesNoToken | apps/api-server/src/auth/strategy/jwt.strategy.ts:39-42 | `Bearer` alone, or followed by two spaces, yields no token |
| AccessStrategy.EmptyBearerGivesNoToken | apps/api-server/src/auth/strategy/jwt.strategy.ts:33-42 | `Bearer ` with nothing after the space yields no token, whatever the cookies hold |
| AccessStrategy.ContractHeaderCheckDiffers | apps/api-server/src/auth/strategy/jwt.strategy.ts:39-44 | the shared header schema accepts `Bearer`, which carries no token, and refuses `Basic <t>`, from which the extractor takes t |
| AuthStore.SetAccessToken | apps/admin-web/src/stores/auth-store.ts:7-11 | after `setAccessToken(t)` the store holds t |
| AuthStore.LastWriteWins | apps/admin-web/src/stores/auth-store.ts:5-17 | the token read back is the last one written, or `''` if nothing was written |
| AuthStore.ReplayConcat | apps/admin-web/src/stores/auth-store.ts:7-11 | two runs of writes compose into the run of their concatenation |
| AuthStore.ClearingRestoresInitial | apps/admin-web/src/stores/auth-store.ts:6-11 | writing `''` returns the store to its initial state |
| UserStore.SelectProfile | apps/admin-web/src/stores/user-store.ts:36-42 | the cached profile is the body of a 200 response and nothing otherwise |
| UserStore.Refetch | apps/admin-web/src/stores/user-store.ts:30-46 | the profile query is sent with the token held at that moment; a 2xx answer replaces the cached profile with its selection, and any other answer keeps the previous profile |
| UserStore.Login | apps/admin-web/src/stores/user-store.ts:50-63 | a 200 stores the new token and reloads the profile with it, keeping the previous profile when that reload fails; any other status throws `WrongCredentials` |
| UserStore.Clear | apps/admin-web/src/stores/user-store.ts:65-69 | `clear` empties the token and drops the profile |
| UserStore.Logout | apps/admin-web/src/stores/user-store.ts:71-80 | a status of 400 or above throws; otherwise the token is emptied, the profile dropped and reloaded without a token, so it is present exactly when that reload answers 200 |
| UserStore.ClearIdempotent | apps/admin-web/src/stores/user-store.ts:65-69 | clearing twice is clearing once, and gives the start state |
| UserStore.LoginForgetsPreviousSession | apps/admin-web/src/stores/user-store.ts:50-63 | when the profile reload succeeds, the outcome of a login does not depend on the state before it |
| UserStore.LoginKeepsStaleProfile | apps/admin-web/src/stores/user-store.ts:30-62 | a login whose profile reload fails leaves the previous session's profile next to the new token |
| UserStore.LoginThenLogout | apps/admin-web/src/stores/user-store.ts:50-80 | logging in and then out leaves what logging out from the start leaves |
| UserStore.LogoutLeavesNoProfile | apps/admin-web/src/stores/user-store.ts:71-80 | when the server refuses token-less profile requests, logout ends in the start state |
| ApiClient.Spread | apps/admin-web/src/common/api.ts:29-32 | an object spread has exactly the property names of both parts |
| ApiClient.SpreadLookup | apps/admin-web/src/common/api.ts:29-32 | reading a spread property gives the later object's value if it has one, otherwise the earlier one's |
| ApiClient.WithAuthorization | apps/admin-web/src/common/api.ts:54-57 | a request carries `Authorization` plus exactly the caller's headers |
| ApiClient.AuthorizationHeaderValue | apps/admin-web/src/common/api.ts:29-32 | the caller's own `Authorization` wins; otherwise the header is `Bearer <stored token>` |
| ApiClient.AutoRefreshCall | apps/admin-web/src/common/api.ts:48-90 | one or two requests are sent, the first with the stored token; the refresh is called exactly when the first answer is 401, and a second request is sent exactly when that call is answered; a rejected refresh call is the caller's failure, otherwise the caller gets the last request's answer or rejection, the retry being a request of its own that may be answered differently from the first |
| ApiClient.PassThroughUnlessUnauthorized | apps/admin-web/src/common/api.ts:52-63 | an answer other than 401, or a rejected first request, is returned with no refresh and no state change |
| ApiClient.RetryToken | apps/admin-web/src/common/api.ts:65-83 | the retry carries the refreshed token if the refresh returned 200, which is then stored; otherwise it repeats the old token and nothing is stored |
| ApiClient.SecondUnauthorizedClears | apps/admin-web/src/common/api.ts:84-87 | a 401 on the retry clears the user store; a retry that gets through keeps the profile |
| ApiClient.CallerAuthorizationDefeatsRefresh | apps/admin-web/src/common/api.ts:77-83 | a caller-set `Authorization` is sent unchanged on both attempts |
| ApiClient.RejectionPropagates | apps/admin-web/src/common/api.ts:52-90 | a rejected first request or refresh call reaches the caller with nothing sent after it and the session untouched, and no rejection clears the profile |
| ApiClient.RejectedRetryKeepsNewToken | apps/admin-web/src/common/api.ts:70-89 | a rejected retry after a successful refresh leaves the new token stored and the profile in place |
| ApiClient.RejectedRetryAfterFailedRefresh | apps/admin-web/src/common/api.ts:70-89 | after a refresh answered with anything but 200, a rejected retry repeats the first request's headers, reaches the caller, and leaves the session as it was |
| ApiClient.RequestWithAutoThrow | apps/admin-web/src/common/api.ts:122-136 | a status of 400 or above throws the body; any other status returns it |
| MemoKey.Canonical | apps/admin-web/src/common/api.ts:37 | the memo key keeps an object's property names and an array's length |
| MemoKey.PropertyOrderIrrelevant | apps/admin-web/src/common/api.ts:37 | objects with the same names and equally keyed values share a key, at any depth, whatever the property order |
| MemoKey.SwappedPairShareKey | apps/admin-web/src/common/api.ts:37 | two distinctly named properties listed in either order, with equally keyed values, give one key |
| MemoKey.WrapperKeysDiffer | apps/admin-web/src/common/api.ts:37 | the key of `{ router, options }` differs whenever the options' keys differ |
| MemoKey.DistinctKeysDistinctClients | apps/admin-web/src/common/api.ts:16-38 | a second call with a different key never gets the client the first call was given |
| MemoKey.PermutedPropertiesShareKey | apps/admin-web/src/common/api.ts:37 | the same properties in another order give the same key |
| MemoKey.DifferentPropertiesDifferentKeys | apps/admin-web/src/common/api.ts:37 | a missing name, or a name with a differently keyed value, gives a different key |
| MemoKey.Memoized | apps/admin-web/src/common/api.ts:16-38 | a cached key returns its instance without changing the cache; a new key gets a fresh instance that is then cached |
| MemoKey.SameKeySameInstance | apps/admin-web/src/common/api.ts:16-38 | two calls return the same instance exactly when their keys are equal |
| MemoKey.SameKeySameClient | apps/admin-web/src/common/api.ts:16-38 | asking twice for one key returns the first call's client and leaves the cache as it was |
| MemoKey.UseClientEqualOptions | apps/admin-web/src/common/api.test.ts:39-49 | options with equal keys share a client |
| MemoKey.UseClientDifferentOptions | apps/admin-web/src/common/api.test.ts:29-36 | options with different keys get different clients |
| MemoKey.UseClientNewOptions | apps/admin-web/src/common/api.test.ts:29-36 | a call without options and a call with options get different clients, and so do options that differ in a name |
| MemoKey.ReorderedNestedOptionsShareKey | apps/admin-web/src/common/api.test.ts:39-49 | the test's two option objects, reordered at both levels, have the same key |
| EndToEnd.StoredTokenReachesServer | apps/admin-web/src/common/api.ts:52-58 | a non-empty stored token without whitespace, NUL, CR or LF arrives unchanged after `Headers` normalisation, and the server's extractor reads exactly that token |
| EndToEnd.EmptyStoreSendsNoToken | apps/admin-web/src/common/api.ts:52-58 | before login the wrapper builds `Bearer `, which `Headers` normalises to `Bearer`; that header takes precedence over any cookie yet gives the server no token |
| EndToEnd.BrokenTokenIsNeverSent | apps/admin-web/src/common/api.ts:52-58 | a stored token with a NUL, CR or LF before a non-blank end makes the request fail before it is sent |
| FetchHeaders.StripLeading | apps/admin-web/src/common/api.ts:55 | what is cut from the front is exactly the leading run of HTTP whitespace |
| FetchHeaders.StripTrailing | apps/admin-web/src/common/api.ts:55 | what is cut from the end is exactly the trailing run of HTTP whitespace |
| FetchHeaders.Normalise | apps/admin-web/src/common/api.ts:52-58 | a header value that goes on the wire has no HTTP whitespace at either end and no NUL, CR or LF |
| FetchHeaders.NormaliseFixesExactlyHeaderValues | apps/admin-web/src/common/api.ts:52-58 | `Headers` sends a value unchanged exactly when it already is a valid header value |
| FetchHeaders.TrailingWhitespaceIsCut | apps/admin-web/src/common/api.ts:52-58 | whitespace after a valid header value is cut away |
| FetchHeaders.InnerForbiddenThrows | apps/admin-web/src/common/api.ts:52-58 | a NUL, CR or LF between non-blank ends makes `Headers` throw |
| EnvLoader.EnvMode | apps/api-server/src/main.ts:15 | the mode is `STAGE_ENV`, else `NODE_ENV`, else `development` |
| EnvLoader.SecretVersionName | apps/api-server/src/main.ts:24 | the secret name embeds the mode between a fixed prefix and suffix |
| EnvLoader.SecretVersionNameInjective | apps/api-server/src/main.ts:22-25 | different modes read different secrets |
| EnvLoader.ParseEnv | apps/api-server/src/main.ts:27-43 | a variable is defined exactly when some non-blank line of the payload names it |
| EnvLoader.ParseLinesLastLineWins | apps/api-server/src/main.ts:28-43 | a variable named by a non-blank line, and by no later line, holds that line's value |
| EnvLoader.ParseLinesDefinedIff | apps/api-server/src/main.ts:28-43 | the lines define a variable exactly when some non-blank line names it |
| EnvLoader.FilterThenApply | apps/api-server/src/main.ts:28-43 | dropping the blank lines and then folding gives what folding every line gives when a blank line sets nothing |
| EnvLoader.NonBlank | apps/api-server/src/main.ts:30 | the kept lines are exactly the lines whose trimmed text is not empty |
| EnvLoader.NonBlankConcat | apps/api-server/src/main.ts:28-30 | filtering two runs of lines keeps the first run's lines, in order, before the second's |
| EnvLoader.LineSplitsAtFirstEquals | apps/api-server/src/main.ts:32-34 | the name is the text before the first `=` and the value is the trimmed text after it, later `=` kept; without `=` the value is empty |
| EnvLoader.LineSetting | apps/api-server/src/main.ts:32-41 | a line without `=` names its trimmed text with the empty value; otherwise the trimmed text before the first `=` gets the trimmed text after it, unless the line starts with `=`, which sets nothing |
| EnvLoader.Apply | apps/api-server/src/main.ts:31-43 | the fold defines exactly the start's variables plus those some setting names, and leaves the value of every variable no setting names |
| EnvLoader.LastDefinitionWins | apps/api-server/src/main.ts:31-43 | a variable has the value of the last setting that names it |
| EnvLoader.MissingPayloadDefinesNothing | apps/api-server/src/main.ts:27 | a missing or empty payload defines nothing |
| EnvLoader.NamelessLines | apps/api-server/src/main.ts:36-39 | a line starting with `=` is skipped; a line whose name is blanks defines the empty name |

## Left out

- The single-flight refresh gate (concurrent 401s sharing one refresh) is not modelled. `api.ts` has none: each call that meets a 401 refreshes on its own, and that is what `ApiClient.AutoRefreshCall` models. Concurrency is out of scope.
- JWT signing, signature and expiry checks, bcrypt and cookie signing are library code, so they are left out. The strategies are modelled from the token extraction onwards. The JWT library's rejection of an empty extracted token is only stated in prose.
- The access strategy's `validate` returns the payload unchanged. It has no logic to state, so it is not modelled.
- `simplifyTypeInference` is the identity at run time and only narrows a static type, so it is not modelled.
- The cursor-paginated schema and the timestamp, error and empty-object schemas are plain declarations without logic.
- `toObject` in `utils-mongoose.ts` is deprecated, so it is left out.
- Numbers are integers. Fractions, `NaN`, the infinities and exponent notation in `String(n)` are not modelled, and neither is `isPositiveNumber` on such values.
- `Date` is modelled in the proleptic Gregorian calendar with no time zones. Daylight-saving and historical offset anomalies of local time are not modelled.
- Calendar.NewLocalDate: takes a non-negative day. `isDate` only builds dates from two-digit day fields, so negative days never occur.
- MongooseIds.CreateFromHexString: accepts 24 hex digits of either case. The library decoder is not part of this model, and its exact case rules are assumed.
- Property names such as `__proto__`, and `in` following the prototype chain, are not modelled. Objects hold only their own properties.
- The HTTP client, `tsRestFetchApi`, the refresh endpoint and the query cache are parameters. Vue-query's own retry (`retry: 1`), refetch scheduling and reactivity are not modelled.
- `memoize` keys are modelled by the canonical form that `object-hash` digests. Hash collisions are not modelled.
- Reading the secret from Secret Manager and writing `process.env` are I/O. The payload is a parameter and the result is a map.
- ApiClient.AutoRefreshCall: assumes the caller passes no `api` option. The caller's `...options` is spread after `api:` in all three wrappers (`api.ts` lines 35, 91 and 116), so such an option would replace the wrapper altogether.
- UserStore.Refetch: `getSelf` stands for the query's final answer after vue-query's own retry. A request that fails outright is not told apart from a non-2xx answer; both keep the previous profile.
- FetchHeaders.Normalise: does not refuse characters above U+00FF, which the JavaScript `Headers` also rejects when it converts the value to a byte string. Header names are not checked either.
- MemoKey.UseClient: its contract only keeps the cache valid. What it returns is stated by the lemmas about `Memoized` and `UseClient` instead.
