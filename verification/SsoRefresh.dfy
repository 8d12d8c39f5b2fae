/**
 Session tokens after single sign-on: redeem, create_auth_tokens_impl and exchange_refresh_token of
 server/src/sso.rs under refresh_tokens of server/src/auth.rs. Times are seconds; what the identity
 provider answers and how its tokens decode are parameters.
 */
module SsoRefresh {
  import opened Wrappers

  const BW_EXPIRATION := 300
  const LEEWAY := 30
  const ACCESS_VALIDITY := 7_200
  const REFRESH_VALIDITY := 2_592_000
  const MOBILE_REFRESH_VALIDITY := 7_776_000

  datatype AuthMethod = Password | Sso | OtherMethod

  datatype TokenWrapper = RefreshToken(text: string) | AccessToken(text: string)

  /** nbf and exp of a provider token that decodes as a JWT. */
  datatype Window = Window(nbf: int, exp: int)

  datatype AccessClaims = AccessClaims(nbf: int, exp: int)

  datatype RefreshClaims = RefreshClaims(nbf: int, exp: int, sub: AuthMethod, device: string, token: Option<TokenWrapper>)

  datatype AuthTokens = AuthTokens(refresh: RefreshClaims, access: AccessClaims)

  datatype Config = Config(ssoEnabled: bool, authOnly: bool, ssoOnly: bool)

  datatype Device = Device(token: string, mobile: bool)

  datatype Error = NoExpiry | CloseToExpiration | NotValid | NoToken | SsoDisabled | SsoRequired | InvalidMethod | UnknownRefreshToken

  /** The provider's reply to a refresh: a new refresh token or none, an access token, and how each decodes. */
  datatype Exchange = Exchange(refresh: Option<string>, access: string, expiresIn: Option<int>)

  /** What the provider and its tokens look like at one call. */
  datatype Provider = Provider(decode: string -> Option<Window>, accessIsValid: bool, exchange: Option<Exchange>)

  function DefaultTokens(device: Device, sub: AuthMethod, now: int): (r: AuthTokens) {
    AuthTokens(
      RefreshClaims(now, now + (if device.mobile then MOBILE_REFRESH_VALIDITY else REFRESH_VALIDITY), sub, device.token, None),
      AccessClaims(now, now + ACCESS_VALIDITY))
  }

  function CreateImpl(p: Provider, device: Device, refreshToken: Option<string>, access: AccessClaims, accessToken: string, now: int)
    : (r: AuthTokens)
  {
    var (window, token) :=
      if refreshToken.Some? then
        var w := p.decode(refreshToken.value);
        (if w.Some? then w.value else Window(now, now + REFRESH_VALIDITY), RefreshToken(refreshToken.value))
      else (Window(access.nbf, access.exp), AccessToken(accessToken));
    AuthTokens(RefreshClaims(window.nbf, window.exp, Sso, device.token, Some(token)), access)
  }

  /** redeem and create_auth_tokens end the same way. */
  function Create(cfg: Config, p: Provider, device: Device, refreshToken: Option<string>, accessToken: string,
                  expiresIn: Option<int>, now: int): (r: Result<AuthTokens, Error>)
  {
    if cfg.authOnly then Ok(DefaultTokens(device, Sso, now))
    else
      var jwt := p.decode(accessToken);
      if jwt.None? && expiresIn.None? then Err(NoExpiry)
      else
        var w := if jwt.Some? then jwt.value else Window(now, now + expiresIn.value);
        Ok(CreateImpl(p, device, refreshToken, AccessClaims(w.nbf, w.exp), accessToken, now))
  }

  function ExchangeRefreshToken(cfg: Config, p: Provider, device: Device, claims: RefreshClaims, now: int): (r: Result<AuthTokens, Error>) {
    match claims.token
    case Some(RefreshToken(rt)) =>
      if p.exchange.None? then Err(NotValid)
      else
        var x := p.exchange.value;
        Create(cfg, p, device, Some(if x.refresh.Some? then x.refresh.value else rt), x.access, x.expiresIn, now)
    case Some(AccessToken(at)) =>
      if claims.exp < now + BW_EXPIRATION then Err(CloseToExpiration)
      else if !p.accessIsValid then Err(NotValid)
      else Ok(CreateImpl(p, device, None, AccessClaims(now, claims.exp), at, now))
    case None => Err(NoToken)
  }

  /** The match on the authentication method in refresh_tokens, once the device is found. */
  function RefreshTokens(cfg: Config, p: Provider, device: Device, claims: RefreshClaims, now: int): (r: Result<AuthTokens, Error>) {
    match claims.sub
    case Sso =>
      if cfg.ssoEnabled && cfg.authOnly then Ok(DefaultTokens(device, Sso, now))
      else if cfg.ssoEnabled then ExchangeRefreshToken(cfg, p, device, claims, now)
      else Err(SsoDisabled)
    case Password => if cfg.ssoEnabled && cfg.ssoOnly then Err(SsoRequired) else Ok(DefaultTokens(device, Password, now))
    case OtherMethod => Err(InvalidMethod)
  }

  /** decode_refresh: the time checks of the JWT library, with 30 seconds of leeway. */
  predicate Decodes(claims: RefreshClaims, now: int) {
    claims.exp >= now - LEEWAY && claims.nbf <= now + LEEWAY
  }

  /**
   refresh_tokens on a token this server issued. A token that does not decode is looked up as an old
   opaque device token; the text of a JWT is none, so no device is found.
   */
  function Present(cfg: Config, p: Provider, device: Device, claims: RefreshClaims, now: int): (r: Result<AuthTokens, Error>) {
    if !Decodes(claims, now) || claims.device != device.token then Err(UnknownRefreshToken)
    else RefreshTokens(cfg, p, device, claims, now)
  }

  // ----- chains of refreshes -----

  /** One later call: when it happens and what the provider says then. */
  datatype Call = Call(now: int, provider: Provider)

  /** The tokens after presenting the last refresh claims at every call; the first refusal ends the chain. */
  function Chain(cfg: Config, device: Device, first: AuthTokens, calls: seq<Call>): (r: Result<AuthTokens, Error>) {
    if calls == [] then Ok(first)
    else
      var last := calls[|calls| - 1];
      var before := Chain(cfg, device, first, calls[..|calls| - 1]);
      if before.Err? then before else Present(cfg, last.provider, device, before.value.refresh, last.now)
  }

  predicate SessionMode(cfg: Config) {
    cfg.ssoEnabled && !cfg.authOnly
  }

  /** When the last refresh claims of a chain start to be valid. */
  function LastNbf(first: int, calls: seq<Call>): (r: int) {
    if calls == [] then first else calls[|calls| - 1].now
  }

  /** When a provider's access token is valid: as it says itself, or from now for the seconds the provider announced. */
  function ProviderWindow(p: Provider, accessToken: string, expiresIn: Option<int>, now: int): (window: Option<Window>) {
    match (p.decode(accessToken), expiresIn)
    case (Some(own), _) => Some(own)
    case (None, Some(seconds)) => Some(Window(now, now + seconds))
    case (None, None) => None
  }

  /**
   A session redeemed without a provider refresh token keeps the expiry of the provider's access token and the same
   provider token through every chain of refreshes; redeeming fails exactly when there is no expiry.
   */
  lemma {:induction false} ExpiryIsFixed(cfg: Config, p: Provider, device: Device, accessToken: string,
                                         expiresIn: Option<int>, now: int, calls: seq<Call>)
    requires SessionMode(cfg)
    ensures var redeemed, window :=
              Create(cfg, p, device, None, accessToken, expiresIn, now), ProviderWindow(p, accessToken, expiresIn, now);
            && (redeemed.Err? <==> window == None)
            && (redeemed.Ok? ==>
                  var end := Chain(cfg, device, redeemed.value, calls);
                  end.Ok? ==>
                    && end.value.access.exp == end.value.refresh.exp == window.value.exp
                    && end.value.access.nbf == end.value.refresh.nbf == LastNbf(window.value.nbf, calls)
                    && end.value.refresh.token == Some(AccessToken(accessToken))
                    && end.value.refresh.sub == Sso && end.value.refresh.device == device.token)
  {
    if calls != [] {
      ExpiryIsFixed(cfg, p, device, accessToken, expiresIn, now, calls[..|calls| - 1]);
    }
  }

  /**
   A further refresh succeeds exactly while at least 300 seconds remain, the provider still vouches
   for the token, and the last claims are not dated more than 30 seconds in the future.
   */
  lemma RefreshSucceedsIff(cfg: Config, p: Provider, device: Device, accessToken: string,
                           expiresIn: Option<int>, now: int, calls: seq<Call>, next: Call)
    requires SessionMode(cfg)
    requires Create(cfg, p, device, None, accessToken, expiresIn, now).Ok?
    requires Chain(cfg, device, Create(cfg, p, device, None, accessToken, expiresIn, now).value, calls).Ok?
    ensures var first, window :=
              Create(cfg, p, device, None, accessToken, expiresIn, now).value, ProviderWindow(p, accessToken, expiresIn, now);
            Chain(cfg, device, first, calls + [next]).Ok?
            <==> && window.value.exp - next.now >= 300
                 && next.provider.accessIsValid
                 && LastNbf(window.value.nbf, calls) <= next.now + 30
  {
    ExpiryIsFixed(cfg, p, device, accessToken, expiresIn, now, calls);
    assert (calls + [next])[..|calls|] == calls;
  }

  // ----- sessions with a provider refresh token -----

  /** The refresh token last handed out: a refresh without a new one keeps the old one. */
  function LastRefreshToken(first: string, calls: seq<Call>): (token: string) {
    if calls == [] then first
    else
      var answer := calls[|calls| - 1].provider.exchange;
      if answer.Some? && answer.value.refresh.Some? then answer.value.refresh.value
      else LastRefreshToken(first, calls[..|calls| - 1])
  }

  /** Such a session always holds the provider's latest refresh token and expires with it, or 30 days after the last call if it is opaque. */
  lemma {:induction false} ProviderTokenFollows(cfg: Config, device: Device, first: AuthTokens, token: string, calls: seq<Call>)
    requires SessionMode(cfg) && first.refresh.token == Some(RefreshToken(token)) && first.refresh.sub == Sso
    ensures var end := Chain(cfg, device, first, calls);
            end.Ok? ==>
              var latest := LastRefreshToken(token, calls);
              && end.value.refresh.token == Some(RefreshToken(latest)) && end.value.refresh.sub == Sso
              && (calls != [] ==>
                    var last := calls[|calls| - 1];
                    var window, answer := last.provider.decode(latest), last.provider.exchange;
                    && (end.value.refresh.nbf, end.value.refresh.exp)
                       == (if window.Some? then (window.value.nbf, window.value.exp) else (last.now, last.now + 30 * 86_400))
                    && answer.Some?
                    && Some(Window(end.value.access.nbf, end.value.access.exp))
                       == ProviderWindow(last.provider, answer.value.access, answer.value.expiresIn, last.now))
  {
    if calls != [] {
      ProviderTokenFollows(cfg, device, first, token, calls[..|calls| - 1]);
    }
  }

  // ----- sessions of the server alone -----

  /**
   A password session, and a single sign-on session in the mode that only authenticates, is renewed for two hours
   and for 30 days, or 90 on a mobile device, without asking the provider.
   */
  lemma OwnSessions(cfg: Config, p: Provider, device: Device, claims: RefreshClaims, now: int)
    requires Decodes(claims, now) && claims.device == device.token
    ensures var renewed := Present(cfg, p, device, claims, now);
            && (claims.sub == Password ==>
                  (renewed.Err? <==> cfg.ssoEnabled && cfg.ssoOnly) && (renewed.Err? ==> renewed.error == SsoRequired))
            && (claims.sub == Sso && cfg.authOnly ==>
                  (renewed.Err? <==> !cfg.ssoEnabled) && (renewed.Err? ==> renewed.error == SsoDisabled))
            && (renewed.Ok? && (claims.sub == Password || cfg.authOnly) ==>
                  && renewed.value.refresh.sub == claims.sub && renewed.value.refresh.device == device.token
                  && renewed.value.refresh.token == None
                  && renewed.value.access.nbf == renewed.value.refresh.nbf == now
                  && renewed.value.access.exp == now + 2 * 3_600
                  && renewed.value.refresh.exp == now + (if device.mobile then 90 else 30) * 86_400)
    ensures claims.sub == OtherMethod ==> Present(cfg, p, device, claims, now) == Err(InvalidMethod)
  {
  }

  /** Why a single sign-on session that is not only for authentication is not renewed. */
  lemma WhySsoRefuses(cfg: Config, p: Provider, device: Device, claims: RefreshClaims, now: int)
    requires Decodes(claims, now) && claims.device == device.token && claims.sub == Sso && !(cfg.ssoEnabled && cfg.authOnly)
    ensures var renewed := Present(cfg, p, device, claims, now);
            var reason :=
              if !cfg.ssoEnabled then SsoDisabled
              else match claims.token
                   case None => NoToken
                   case Some(AccessToken(_)) => if claims.exp - now < 300 then CloseToExpiration else NotValid
                   case Some(RefreshToken(_)) => if p.exchange.None? then NotValid else NoExpiry;
            renewed.Err? ==> renewed.error == reason
    ensures var renewed := Present(cfg, p, device, claims, now);
            renewed.Ok? <==>
              && cfg.ssoEnabled
              && match claims.token
                 case None => false
                 case Some(AccessToken(_)) => claims.exp - now >= 300 && p.accessIsValid
                 case Some(RefreshToken(_)) =>
                   p.exchange.Some? && ProviderWindow(p, p.exchange.value.access, p.exchange.value.expiresIn, now) != None
  {
  }

  /** A refresh token is good from 30 seconds before it becomes valid until 30 seconds after it expires, on its own device. */
  lemma StaleTokens(cfg: Config, p: Provider, device: Device, claims: RefreshClaims, now: int)
    ensures now < claims.nbf - 30 || now > claims.exp + 30 || claims.device != device.token ==>
              Present(cfg, p, device, claims, now) == Err(UnknownRefreshToken)
    ensures Present(cfg, p, device, claims, now) == Err(UnknownRefreshToken) ==>
              now < claims.nbf - 30 || now > claims.exp + 30 || claims.device != device.token
  {
  }
}
