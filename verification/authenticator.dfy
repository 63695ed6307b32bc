/** Combining an API key and a bearer token into one principal. The checks of the two credentials are
    arbitrary functions. */
module Authenticator {
  import opened Common
  import opened Scopes
  import ApiKeyProtocol

  datatype Claims = Claims(clientId: Option<string>, scope: string)

  /** What the key check does: return, or throw one of its two errors. */
  datatype KeyAnswer = KeyOk(info: ApiKeyProtocol.ApiKeyInfo) | KeyInvalid | KeyStoreDown
  datatype TokenAnswer = TokenOk(claims: Claims) | TokenInvalid

  type KeyCheck = string -> KeyAnswer
  type JwtCheck = string -> TokenAnswer

  datatype Credentials = Credentials(verb: string, authorization: string, apiKey: string)

  datatype Principal = Principal(clientId: string, scopes: set<string>, viaApiKey: bool, viaJwt: bool)

  datatype Failure = Unauthorized | Forbidden | Unavailable

  datatype Reason =
    | MissingCredentials | BadApiKey | StoreDown | MalformedHeader | BadToken | UnboundToken
    | DifferentClients | LacksScope(scope: string)

  function KindOf(reason: Reason): Failure {
    match reason
    case StoreDown => Unavailable
    case LacksScope(_) => Forbidden
    case _ => Unauthorized
  }

  const BEARER := "Bearer "

  function RequiredScope(verb: string): string {
    if verb == "GET" || verb == "HEAD" || verb == "OPTIONS" then "read" else "write"
  }

  // ---------------------------------------------------------------- what each credential grants

  datatype Grant = Grant(clientId: string, scopes: set<string>)

  ghost function KeyGrant(apiKey: string, checkKey: KeyCheck): Result<Grant, Reason> {
    match checkKey(apiKey)
    case KeyOk(info) => Ok(Grant(info.clientId, Named(info.scopes)))
    case KeyInvalid => Err(BadApiKey)
    case KeyStoreDown => Err(StoreDown)
  }

  /** The header carries "Bearer " and a non-empty token. */
  predicate WellFormed(authorization: string) {
    BEARER < authorization
  }

  ghost function TokenGrant(authorization: string, checkJwt: JwtCheck): Result<Grant, Reason> {
    if !WellFormed(authorization) then Err(MalformedHeader)
    else
      match checkJwt(authorization[|BEARER|..])
      case TokenInvalid => Err(BadToken)
      case TokenOk(claims) =>
        if claims.clientId.None? || claims.clientId.value == "" then Err(UnboundToken)
        else Ok(Grant(claims.clientId.value, Named(claims.scope)))
  }

  ghost function Both(key: Grant, token: Grant): Result<Grant, Reason> {
    if key.clientId == token.clientId then Ok(Grant(key.clientId, key.scopes * token.scopes)) else Err(DifferentClients)
  }

  /** The key's error comes before the token's. */
  ghost function Granted(creds: Credentials, checkJwt: JwtCheck, checkKey: KeyCheck): Result<Grant, Reason> {
    var key, token := KeyGrant(creds.apiKey, checkKey), TokenGrant(creds.authorization, checkJwt);
    if creds.apiKey == "" && creds.authorization == "" then Err(MissingCredentials)
    else if creds.apiKey == "" then token
    else if creds.authorization == "" || key.Err? then key
    else if token.Err? then token
    else Both(key.value, token.value)
  }

  ghost function Verdict(creds: Credentials, checkJwt: JwtCheck, checkKey: KeyCheck): Result<Principal, Reason> {
    match Granted(creds, checkJwt, checkKey)
    case Err(reason) => Err(reason)
    case Ok(grant) =>
      if RequiredScope(creds.verb) in grant.scopes
      then Ok(Principal(grant.clientId, grant.scopes, creds.apiKey != "", creds.authorization != ""))
      else Err(LacksScope(RequiredScope(creds.verb)))
  }

  /** The key check knows the key, as this client's and with these scopes. */
  ghost predicate GoodKey(apiKey: string, checkKey: KeyCheck, client: string, scopes: set<string>) {
    var answer := checkKey(apiKey);
    answer.KeyOk? && answer.info.clientId == client && Named(answer.info.scopes) == scopes
  }

  /** The header is "Bearer " and a token that the token check accepts, bound to this client, with these scopes. */
  ghost predicate GoodToken(authorization: string, checkJwt: JwtCheck, client: string, scopes: set<string>) {
    && |authorization| > 7 && authorization[..7] == "Bearer "
    && var answer := checkJwt(authorization[7..]);
    && answer.TokenOk? && answer.claims.clientId == Some(client) && client != ""
    && Named(answer.claims.scope) == scopes
  }

  /** The credentials presented - there is at least one - are all good and name this client; these are the
      scopes that all of them grant. */
  ghost predicate Good(creds: Credentials, checkJwt: JwtCheck, checkKey: KeyCheck, client: string, scopes: set<string>) {
    if creds.apiKey != "" && creds.authorization != "" then
      exists k, t ::
        GoodKey(creds.apiKey, checkKey, client, k) && GoodToken(creds.authorization, checkJwt, client, t)
        && scopes == set x | x in k && x in t
    else if creds.apiKey != "" then GoodKey(creds.apiKey, checkKey, client, scopes)
    else creds.authorization != "" && GoodToken(creds.authorization, checkJwt, client, scopes)
  }

  lemma TokenGrantByFields(authorization: string, checkJwt: JwtCheck, client: string, scopes: set<string>)
    ensures TokenGrant(authorization, checkJwt) == Ok(Grant(client, scopes)) <==>
            GoodToken(authorization, checkJwt, client, scopes)
  {
    if |authorization| > 7 {
      assert authorization == authorization[..7] + authorization[7..];
    }
  }

  lemma GrantedByFields(creds: Credentials, checkJwt: JwtCheck, checkKey: KeyCheck, client: string, scopes: set<string>)
    ensures Granted(creds, checkJwt, checkKey) == Ok(Grant(client, scopes)) <==>
            Good(creds, checkJwt, checkKey, client, scopes)
  {
    TokenGrantByFields(creds.authorization, checkJwt, client, scopes);
    if creds.apiKey != "" && creds.authorization != "" {
      var key, token := KeyGrant(creds.apiKey, checkKey), TokenGrant(creds.authorization, checkJwt);
      if Granted(creds, checkJwt, checkKey) == Ok(Grant(client, scopes)) {
        TokenGrantByFields(creds.authorization, checkJwt, client, token.value.scopes);
        assert GoodKey(creds.apiKey, checkKey, client, key.value.scopes);
        assert scopes == set x | x in key.value.scopes && x in token.value.scopes;
      }
      if Good(creds, checkJwt, checkKey, client, scopes) {
        var k, t :|
          GoodKey(creds.apiKey, checkKey, client, k) && GoodToken(creds.authorization, checkJwt, client, t)
          && scopes == set x | x in k && x in t;
        TokenGrantByFields(creds.authorization, checkJwt, client, t);
        assert key.value.scopes * token.value.scopes == scopes;
      }
    }
  }

  /** What the method must have: "read" for GET, HEAD and OPTIONS, "write" for every other verb. */
  ghost predicate MayUse(verb: string, scopes: set<string>) {
    && (verb in {"GET", "HEAD", "OPTIONS"} ==> "read" in scopes)
    && (verb !in {"GET", "HEAD", "OPTIONS"} ==> "write" in scopes)
  }

  lemma VerdictByFields(creds: Credentials, checkJwt: JwtCheck, checkKey: KeyCheck)
    ensures var v := Verdict(creds, checkJwt, checkKey);
            && (v.Ok? ==> Good(creds, checkJwt, checkKey, v.value.clientId, v.value.scopes) && MayUse(creds.verb, v.value.scopes))
            && forall client, scopes | Good(creds, checkJwt, checkKey, client, scopes) ::
                 if MayUse(creds.verb, scopes)
                 then v == Ok(Principal(client, scopes, creds.apiKey != "", creds.authorization != ""))
                 else v.Err? && KindOf(v.error) == Forbidden
  {
    var v := Verdict(creds, checkJwt, checkKey);
    if v.Ok? {
      GrantedByFields(creds, checkJwt, checkKey, v.value.clientId, v.value.scopes);
    }
    forall client, scopes | Good(creds, checkJwt, checkKey, client, scopes)
      ensures if MayUse(creds.verb, scopes)
              then v == Ok(Principal(client, scopes, creds.apiKey != "", creds.authorization != ""))
              else v.Err? && KindOf(v.error) == Forbidden
    {
      GrantedByFields(creds, checkJwt, checkKey, client, scopes);
    }
  }

  /** Succeeds only with good credentials that may use the method; with good credentials it succeeds, or is
      forbidden for want of the method's scope alone. */
  method Authenticate(creds: Credentials, checkJwt: JwtCheck, checkKey: KeyCheck)
    returns (r: Result<Principal, Reason>)
    ensures r == Verdict(creds, checkJwt, checkKey)
    ensures creds.apiKey == "" && creds.authorization == "" ==> r == Err(MissingCredentials)
    ensures creds.apiKey != "" && checkKey(creds.apiKey) == KeyStoreDown ==> r == Err(StoreDown)
    ensures creds.apiKey != "" && checkKey(creds.apiKey) == KeyInvalid ==> r == Err(BadApiKey)
    ensures r.Ok? ==> Good(creds, checkJwt, checkKey, r.value.clientId, r.value.scopes)
    ensures r.Ok? ==> if creds.verb in {"GET", "HEAD", "OPTIONS"} then "read" in r.value.scopes else "write" in r.value.scopes
    ensures forall client, scopes | Good(creds, checkJwt, checkKey, client, scopes) ::
              if MayUse(creds.verb, scopes)
              then r == Ok(Principal(client, scopes, creds.apiKey != "", creds.authorization != ""))
              else r.Err? && KindOf(r.error) == Forbidden
  {
    VerdictByFields(creds, checkJwt, checkKey);
    var hasKey := creds.apiKey != "";
    var hasJwt := creds.authorization != "";
    if !hasKey && !hasJwt {
      return Err(MissingCredentials);
    }

    var principal := Principal("", {}, false, false);
    if hasKey {
      match checkKey(creds.apiKey) {
        case KeyOk(info) =>
          var scopes := ParseScopes(info.scopes);
          principal := Principal(info.clientId, scopes, true, false);
        case KeyStoreDown => return Err(StoreDown);
        case KeyInvalid => return Err(BadApiKey);
      }
    }

    if hasJwt {
      if !(BEARER <= creds.authorization) || |creds.authorization| == |BEARER| {
        return Err(MalformedHeader);
      }
      var answer := checkJwt(creds.authorization[|BEARER|..]);
      if answer.TokenInvalid? {
        return Err(BadToken);
      }
      var claims := answer.claims;
      if claims.clientId.None? || claims.clientId.value == "" {
        return Err(UnboundToken);
      }
      var tokenScopes := ParseScopes(claims.scope);
      if principal.viaApiKey {
        if claims.clientId.value != principal.clientId {
          return Err(DifferentClients);
        }
        principal := principal.(scopes := principal.scopes * tokenScopes);
      } else {
        principal := principal.(clientId := claims.clientId.value, scopes := tokenScopes);
      }
      principal := principal.(viaJwt := true);
    }

    var needed := RequiredScope(creds.verb);
    if needed !in principal.scopes {
      return Err(LacksScope(needed));
    }
    return Ok(principal);
  }

  // ---------------------------------------------------------------- theorems

  /** A key and a token together authenticate if and only if each alone does for that method and both
      name the same client; the scopes are then exactly the common ones. */
  lemma BothIffEach(creds: Credentials, checkJwt: JwtCheck, checkKey: KeyCheck)
    requires creds.apiKey != "" && creds.authorization != ""
    ensures var both := Verdict(creds, checkJwt, checkKey);
            var keyOnly := Verdict(creds.(authorization := ""), checkJwt, checkKey);
            var tokenOnly := Verdict(creds.(apiKey := ""), checkJwt, checkKey);
            && (both.Ok? <==> keyOnly.Ok? && tokenOnly.Ok? && keyOnly.value.clientId == tokenOnly.value.clientId)
            && (both.Ok? ==>
                  && both.value.clientId == keyOnly.value.clientId
                  && both.value.scopes == keyOnly.value.scopes * tokenOnly.value.scopes)
  {
  }

  /** Every scope of a principal was granted by every credential presented, and the method's scope is
      among them: adding a credential never widens access. */
  lemma EveryCredentialGrants(creds: Credentials, checkJwt: JwtCheck, checkKey: KeyCheck, scope: string)
    requires var v := Verdict(creds, checkJwt, checkKey); v.Ok? && scope in v.value.scopes
    ensures var v := Verdict(creds, checkJwt, checkKey).value;
            && RequiredScope(creds.verb) in v.scopes
            && (v.viaApiKey || v.viaJwt)
            && (v.viaApiKey ==>
                  var answer := checkKey(creds.apiKey);
                  answer.KeyOk? && answer.info.clientId == v.clientId && scope in Named(answer.info.scopes))
            && (v.viaJwt ==>
                  && WellFormed(creds.authorization)
                  && var answer := checkJwt(creds.authorization[|BEARER|..]);
                  answer.TokenOk? && answer.claims.clientId == Some(v.clientId) && scope in Named(answer.claims.scope))
  {
  }

  /** The three kinds of refusal: unavailable only if the key store could not be asked, forbidden only if
      the credentials are good and the method's scope is all that is missing. */
  lemma RefusalKinds(creds: Credentials, checkJwt: JwtCheck, checkKey: KeyCheck)
    ensures var v := Verdict(creds, checkJwt, checkKey);
            v.Err? ==>
              && (KindOf(v.error).Unavailable? <==> creds.apiKey != "" && checkKey(creds.apiKey).KeyStoreDown?)
              && (KindOf(v.error).Forbidden? <==> Granted(creds, checkJwt, checkKey).Ok?)
  {
  }
}
