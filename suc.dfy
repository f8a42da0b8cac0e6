/** The login responses of aliyundrive's scan/login flow (src/drive/src/scan/model/suc.rs):
    the redirect ("goto") response and its authorization-code extraction, the
    mobile and web login responses with their access/refresh token accessors,
    and the token-refresh response. */
module Suc {
  import opened RustStr

  datatype Option<T> = None | Some(value: T)

  /** Rust's `i64` and `u64`, used only by inert expiry fields. */
  newtype i64 = x: int | -0x8000_0000_0000_0000 <= x < 0x8000_0000_0000_0000
  newtype u64 = x: int | 0 <= x < 0x1_0000_0000_0000_0000

  /** The query parameter that carries the authorization code. */
  const CODE_KEY: string := "code"

  /** The failure exits of `extract_authorization_code`, one per error it raises. */
  datatype CodeError =
    | GotoValueNone             // "goto value is None"
    | UrlParseError             // the error `Url::parse` reports
    | GotoQueryNone             // "goto query is None"
    | ParamValueNone            // "goto query param value is None"
    | AuthorizationCodeNotFound // "Failed to get authorization code"

  datatype Result<T> = Ok(value: T) | Err(error: CodeError)

  /** What `Url::parse(goto)` followed by `url.query()` observes: either the
      string is not a URL, or it is one with an optional raw query. */
  datatype UrlQuery = Unparsable | Parsed(query: Option<string>)

  // ---------------------------------------------------------------------------
  // Scanning the query string

  /** The key of a query parameter: piece 0 of its split on every `=`. */
  predicate KeyIs(param: string, key: string)
  {
    Split(param, '=')[0] == key
  }

  /** The outcome decided by a parameter whose key matched: its piece 1, or an
      error when it has no `=` at all. */
  function Decide(param: string): (r: Result<string>)
    ensures r.Ok? <==> '=' in param
    ensures r.Err? ==> r.error == ParamValueNone
    ensures r.Ok? ==> '=' !in r.value
  {
    SplitManyIff(param, '=');
    var kv := Split(param, '=');
    if |kv| >= 2 then Ok(kv[1]) else Err(ParamValueNone)
  }

  /** The first matching parameter decides; none matching is "not found".
      This is the reference definition of the loop in ExtractAuthorizationCode. */
  function ScanParams(params: seq<string>, key: string): (r: Result<string>)
    ensures r.Err? ==> r.error == ParamValueNone || r.error == AuthorizationCodeNotFound
    ensures r.Ok? ==> '=' !in r.value
    ensures params == [] ==> r == Err(AuthorizationCodeNotFound)
    decreases |params|
  {
    if params == [] then Err(AuthorizationCodeNotFound)
    else if KeyIs(params[0], key) then Decide(params[0])
    else ScanParams(params[1..], key)
  }

  /** `i` is the position of the first parameter whose key is `key`. */
  predicate FirstMatch(params: seq<string>, key: string, i: nat)
  {
    && i < |params|
    && KeyIs(params[i], key)
    && forall j :: 0 <= j < i ==> !KeyIs(params[j], key)
  }

  /** No parameter's key is `key`. */
  predicate NoMatch(params: seq<string>, key: string)
  {
    forall j :: 0 <= j < |params| ==> !KeyIs(params[j], key)
  }

  /** The specification of `extract_authorization_code` on a response, with
      URL parsing supplied as `parse`. */
  function AuthorizationCode(response: GotoResponse, parse: string -> UrlQuery): Result<string>
  {
    match response.goto
    case None => Err(GotoValueNone)
    case Some(goto) =>
      match parse(goto)
      case Unparsable => Err(UrlParseError)
      case Parsed(None) => Err(GotoQueryNone)
      case Parsed(Some(query)) => ScanParams(Split(query, '&'), CODE_KEY)
  }

  // ---------------------------------------------------------------------------
  // The records

  datatype GotoResponse = GotoResponse(goto: Option<string>)
  {
    /** `impl From<&String> for GotoResponse`: the string becomes the goto target. */
    static function From(token: string): (response: GotoResponse)
      ensures response.goto == Some(token)
    {
      GotoResponse(Some(token))
    }

    /** `extract_authorization_code`: scans the raw query of the goto URL for
        `CODE_KEY` and returns that parameter's value undecoded. */
    method ExtractAuthorizationCode(parse: string -> UrlQuery) returns (r: Result<string>)
      ensures r == AuthorizationCode(this, parse)
      ensures goto.None? ==> r == Err(GotoValueNone)
    {
      if goto.None? {
        return Err(GotoValueNone);
      }
      var url := parse(goto.value);
      if url.Unparsable? {
        return Err(UrlParseError);
      }
      if url.query.None? {
        return Err(GotoQueryNone);
      }
      var query := url.query.value;
      var params := Split(query, '&');
      var i := 0;
      while i < |params|
        invariant 0 <= i <= |params|
        invariant ScanParams(params[i..], CODE_KEY) == ScanParams(params, CODE_KEY)
      {
        var kv := Split(params[i], '=');
        var key := kv[0];
        if key == CODE_KEY {
          if |kv| < 2 {
            return Err(ParamValueNone);
          }
          return Ok(kv[1]);
        }
        assert params[i..][1..] == params[i + 1..];
        i := i + 1;
      }
      return Err(AuthorizationCodeNotFound);
    }
  }

  datatype MobileLoginResponse = MobileLoginResponse(pdsLoginResult: Option<PdsLoginResult>)
  {
    /** `AuthorizationToken::access_token`: present only when both the nested
        result and its access token are present. */
    function AccessToken(): (r: Option<string>)
      ensures r.Some? <==> pdsLoginResult.Some? && pdsLoginResult.value.accessToken.Some?
      ensures r.Some? ==> r.value == pdsLoginResult.value.accessToken.value
    {
      match pdsLoginResult
      case None => None
      case Some(result) =>
        match result.accessToken
        case None => None
        case Some(token) => Some(token)
    }

    /** `AuthorizationToken::refresh_token`, the same two-level chain. */
    function RefreshToken(): (r: Option<string>)
      ensures r.Some? <==> pdsLoginResult.Some? && pdsLoginResult.value.refreshToken.Some?
      ensures r.Some? ==> r.value == pdsLoginResult.value.refreshToken.value
    {
      match pdsLoginResult
      case None => None
      case Some(result) =>
        match result.refreshToken
        case None => None
        case Some(token) => Some(token)
    }
  }

  datatype PdsLoginResult = PdsLoginResult(
    role: Option<string>,
    userData: Option<UserData>,
    isFirstLogin: bool,
    needLink: bool,
    loginType: Option<string>,
    nickName: Option<string>,
    needRpVerify: bool,
    avatar: Option<string>,
    accessToken: Option<string>,
    userName: Option<string>,
    userId: Option<string>,
    defaultDriveId: Option<string>,
    expiresIn: i64,
    expireTime: Option<string>,
    requestId: Option<string>,
    dataPinSetup: bool,
    state: Option<string>,
    tokenType: Option<string>,
    dataPinSaved: bool,
    refreshToken: Option<string>,
    status: Option<string>)

  datatype UserData = UserData(
    dingDingRobotUrl: Option<string>,
    feedBackSwitch: bool,
    followingDesc: Option<string>)

  datatype WebLoginResponse = WebLoginResponse(
    defaultSboxDriveId: Option<string>,
    role: Option<string>,
    userName: Option<string>,
    needLink: bool,
    expireTime: Option<string>,
    pinSetup: bool,
    needRpVerify: bool,
    avatar: Option<string>,
    userData: Option<UserData>,
    tokenType: Option<string>,
    accessToken: Option<string>,
    defaultDriveId: Option<string>,
    domainId: Option<string>,
    refreshToken: Option<string>,
    isFirstLogin: bool,
    userId: Option<string>,
    nickName: Option<string>,
    state: Option<string>,
    expiresIn: i64,
    status: Option<string>)
  {
    /** `get_drive_id`: the default drive id, as stored. */
    function GetDriveId(): (r: Option<string>)
      ensures r == defaultDriveId
    {
      defaultDriveId
    }

    /** `AuthorizationToken::access_token`: the flat field, as stored. */
    function AccessToken(): (r: Option<string>)
      ensures r == accessToken
    {
      accessToken
    }

    /** `AuthorizationToken::refresh_token`: the flat field, as stored. */
    function RefreshToken(): (r: Option<string>)
      ensures r == refreshToken
    {
      refreshToken
    }
  }

  /** The token-refresh response; every field is mandatory. */
  datatype RefreshTokenResponse = RefreshTokenResponse(
    accessToken: string,
    refreshToken: string,
    expiresIn: u64,
    tokenType: string,
    userId: string,
    nickName: string,
    defaultDriveId: string)
}
