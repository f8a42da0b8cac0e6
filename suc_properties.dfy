/** What `extract_authorization_code` and the token accessors promise, proved
    about the definitions in module Suc. */
module SucProperties {
  import opened RustStr
  import opened Suc

  // ---------------------------------------------------------------------------
  // The query scan

  /** The first parameter whose key matches alone decides the outcome. */
  lemma {:induction false} ScanFirstMatchDecides(params: seq<string>, key: string, i: nat)
    requires FirstMatch(params, key, i)
    ensures ScanParams(params, key) == Decide(params[i])
  {
    if i > 0 {
      assert !KeyIs(params[0], key);
      assert FirstMatch(params[1..], key, i - 1) by {
        forall j | 0 <= j < i - 1
          ensures !KeyIs(params[1..][j], key)
        {
          assert params[1..][j] == params[j + 1];
        }
      }
      ScanFirstMatchDecides(params[1..], key, i - 1);
    }
  }

  /** Any outcome other than "not found" comes from a first match. */
  lemma {:induction false} ScanFindsFirstMatch(params: seq<string>, key: string) returns (i: nat)
    requires ScanParams(params, key) != Err(AuthorizationCodeNotFound)
    ensures FirstMatch(params, key, i)
    ensures ScanParams(params, key) == Decide(params[i])
    decreases |params|
  {
    if KeyIs(params[0], key) {
      i := 0;
    } else {
      var k := ScanFindsFirstMatch(params[1..], key);
      i := k + 1;
      forall j | 0 < j < i
        ensures !KeyIs(params[j], key)
      {
        assert params[j] == params[1..][j - 1];
      }
    }
  }

  /** "Not found" exactly when no parameter's key matches. */
  lemma {:induction false} ScanNotFoundIff(params: seq<string>, key: string)
    ensures ScanParams(params, key) == Err(AuthorizationCodeNotFound)
        <==> forall j :: 0 <= j < |params| ==> !KeyIs(params[j], key)
    decreases |params|
  {
    if params != [] {
      ScanNotFoundIff(params[1..], key);
      if !KeyIs(params[0], key) {
        assert forall j :: 1 <= j < |params| ==> params[j] == params[1..][j - 1];
      }
    }
  }

  /** Once some parameter matches, whatever follows is ignored: later
      duplicates of the key never change the outcome. */
  lemma {:induction false} ScanIgnoresLater(params: seq<string>, more: seq<string>, key: string, m: nat)
    requires m < |params| && KeyIs(params[m], key)
    ensures ScanParams(params + more, key) == ScanParams(params, key)
    decreases |params|
  {
    if !KeyIs(params[0], key) {
      assert (params + more)[1..] == params[1..] + more;
      ScanIgnoresLater(params[1..], more, key, m - 1);
    }
  }

  /** A parameter whose key differs is skipped, never an error; in particular
      one with an empty key (`=x`, or an empty segment) never matches CODE_KEY. */
  lemma ScanSkipsOtherKey(param: string, more: seq<string>, key: string)
    requires !KeyIs(param, key)
    ensures ScanParams([param] + more, key) == ScanParams(more, key)
  {
    assert ([param] + more)[1..] == more;
  }

  /** A parameter with an empty key (`=x`, or an empty segment) is skipped by
      the scan for CODE_KEY, never reported as an error. */
  lemma EmptyKeySkipped(param: string, more: seq<string>)
    requires Split(param, '=')[0] == ""
    ensures ScanParams([param] + more, CODE_KEY) == ScanParams(more, CODE_KEY)
  {
    ScanSkipsOtherKey(param, more, CODE_KEY);
  }

  /** A matched parameter's value is the text between its first and second `=`,
      occurs in the parameter, and holds no `=`. */
  lemma DecideValue(param: string, v: string)
    requires Decide(param) == Ok(v)
    ensures var rest := param[IndexOf(param, '=') + 1..];
            v == rest[..IndexOf(rest, '=')]
    ensures IsSubstring(v, param)
    ensures '=' !in v
  {
    SplitSecondPiece(param, '=');
    SplitPieceIsSubstring(param, '=', 1);
  }

  // ---------------------------------------------------------------------------
  // extract_authorization_code

  /** Without a goto target the answer is GotoValueNone whatever the URL parser
      would say: the parser is never consulted. */
  lemma GotoNoneBeforeParsing(response: GotoResponse, parse1: string -> UrlQuery, parse2: string -> UrlQuery)
    requires response.goto.None?
    ensures AuthorizationCode(response, parse1) == Err(GotoValueNone)
    ensures AuthorizationCode(response, parse1) == AuthorizationCode(response, parse2)
  {
  }

  /** Each error exit of the extraction, with exactly the situation that causes it. */
  lemma ExtractionErrors(response: GotoResponse, parse: string -> UrlQuery)
    ensures AuthorizationCode(response, parse) == Err(GotoValueNone) <==> response.goto.None?
    ensures AuthorizationCode(response, parse) == Err(UrlParseError)
        <==> response.goto.Some? && parse(response.goto.value).Unparsable?
    ensures AuthorizationCode(response, parse) == Err(GotoQueryNone)
        <==> response.goto.Some? && parse(response.goto.value) == Parsed(None)
    ensures AuthorizationCode(response, parse) == Err(AuthorizationCodeNotFound)
        <==> && response.goto.Some?
             && parse(response.goto.value).Parsed?
             && parse(response.goto.value).query.Some?
             && NoMatch(Split(parse(response.goto.value).query.value, '&'), CODE_KEY)
  {
    if response.goto.Some? && parse(response.goto.value).Parsed? && parse(response.goto.value).query.Some? {
      var params := Split(parse(response.goto.value).query.value, '&');
      assert AuthorizationCode(response, parse) == ScanParams(params, CODE_KEY);
      ScanNotFoundIff(params, CODE_KEY);
    }
  }

  /** ParamValueNone exactly when the first parameter keyed CODE_KEY has no `=`,
      whatever comes after it (so `code&code=X` fails). */
  lemma ExtractionValueMissing(response: GotoResponse, parse: string -> UrlQuery, query: string, i: nat)
    requires response.goto.Some? && parse(response.goto.value) == Parsed(Some(query))
    requires FirstMatch(Split(query, '&'), CODE_KEY, i)
    ensures AuthorizationCode(response, parse) == Err(ParamValueNone)
        <==> '=' !in Split(query, '&')[i]
  {
    ScanFirstMatchDecides(Split(query, '&'), CODE_KEY, i);
  }

  /** A successful extraction returns, undecoded, the text between the first and
      second `=` of the first parameter keyed CODE_KEY; it is a substring of the
      raw query and holds neither `&` nor `=`. */
  lemma ExtractionSuccess(response: GotoResponse, parse: string -> UrlQuery, v: string)
    requires AuthorizationCode(response, parse) == Ok(v)
    ensures response.goto.Some?
    ensures parse(response.goto.value).Parsed? && parse(response.goto.value).query.Some?
    ensures var query := parse(response.goto.value).query.value;
            var params := Split(query, '&');
            && (exists i: nat :: FirstMatch(params, CODE_KEY, i) && '=' in params[i]
                  && var rest := params[i][IndexOf(params[i], '=') + 1..];
                     v == rest[..IndexOf(rest, '=')])
            && IsSubstring(v, query)
            && '&' !in v && '=' !in v
  {
    var query := parse(response.goto.value).query.value;
    var params := Split(query, '&');
    var i := ScanFindsFirstMatch(params, CODE_KEY);
    DecideValue(params[i], v);
    SplitPieceIsSubstring(query, '&', i);
    SubstringTransitive(v, params[i], query);
    SubstringExcludes(v, params[i], '&');
  }

  /** Conversely, a first parameter keyed CODE_KEY that holds `=` makes the
      extraction succeed with its piece 1. */
  lemma ExtractionFromFirstMatch(response: GotoResponse, parse: string -> UrlQuery, query: string, i: nat)
    requires response.goto.Some? && parse(response.goto.value) == Parsed(Some(query))
    requires FirstMatch(Split(query, '&'), CODE_KEY, i)
    requires '=' in Split(query, '&')[i]
    ensures AuthorizationCode(response, parse) == Ok(Split(Split(query, '&')[i], '=')[1])
  {
    ScanFirstMatchDecides(Split(query, '&'), CODE_KEY, i);
    SplitManyIff(Split(query, '&')[i], '=');
  }

  /** A response built from a string keeps that string as its goto target, so
      extraction from it never reports a missing target. */
  lemma FromRoundTrip(token: string, parse: string -> UrlQuery)
    ensures GotoResponse.From(token).goto.value == token
    ensures AuthorizationCode(GotoResponse.From(token), parse) != Err(GotoValueNone)
  {
  }

  // ---------------------------------------------------------------------------
  // Worked queries

  lemma CodeKeyPlain()
    ensures '&' !in CODE_KEY && '=' !in CODE_KEY
  {
  }

  /** `code=a=b` yields `a`: the value stops at the second `=`. */
  lemma ExampleValueStopsAtSecondEquals(a: string, b: string)
    requires '=' !in a
    ensures ScanParams([CODE_KEY + ['='] + a + ['='] + b], CODE_KEY) == Ok(a)
  {
    CodeKeyPlain();
    var s := CODE_KEY + ['='] + (a + ['='] + b);
    assert s == CODE_KEY + ['='] + a + ['='] + b;
    SplitCons(CODE_KEY, '=', a + ['='] + b);
    SplitCons(a, '=', b);
  }

  /** `code&code=X`, or a bare `code` followed by anything, fails: the bare
      first `code` decides. */
  lemma ExampleBareKeyFails(later: seq<string>)
    ensures ScanParams([CODE_KEY] + later, CODE_KEY) == Err(ParamValueNone)
  {
    CodeKeyPlain();
    SplitNoSep(CODE_KEY, '=');
    assert ([CODE_KEY] + later)[0] == CODE_KEY;
  }

  /** `other&code=v&rest` with `other` keyed differently yields `v`
      (for instance `a=1&code=ABC123&b=2` yields `ABC123`). */
  lemma ExampleMiddleParameter(other: string, v: string, rest: string)
    requires '&' !in other && !KeyIs(other, CODE_KEY)
    requires '&' !in v && '=' !in v
    ensures ScanParams(Split(other + ['&'] + CODE_KEY + ['='] + v + ['&'] + rest, '&'), CODE_KEY) == Ok(v)
  {
    CodeKeyPlain();
    var param := CODE_KEY + ['='] + v;
    var tail := param + ['&'] + rest;
    var s := other + ['&'] + tail;
    assert s == other + ['&'] + CODE_KEY + ['='] + v + ['&'] + rest;
    SplitCons(other, '&', tail);
    SplitCons(param, '&', rest);
    SplitCons(CODE_KEY, '=', v);
    SplitNoSep(v, '=');
    assert Split(s, '&') == [other, param] + Split(rest, '&');
  }

  /** The query `a=1&code=ABC123&b=2` yields `ABC123`. */
  lemma ExampleLiteralQuery(query: string)
    requires query == "a=1&code=ABC123&b=2"
    ensures ScanParams(Split(query, '&'), CODE_KEY) == Ok("ABC123")
  {
    var other, v, rest := "a=1", "ABC123", "b=2";
    LiteralQueryParts(query, other, v, rest);
    OtherKeyDiffers(other);
    ExampleMiddleParameter(other, v, rest);
  }

  lemma LiteralQueryParts(query: string, other: string, v: string, rest: string)
    requires query == "a=1&code=ABC123&b=2"
    requires other == "a=1" && v == "ABC123" && rest == "b=2"
    ensures query == other + ['&'] + CODE_KEY + ['='] + v + ['&'] + rest
    ensures '&' !in other && '&' !in v && '=' !in v
  {
  }

  lemma OtherKeyDiffers(other: string)
    requires other == "a=1"
    ensures !KeyIs(other, CODE_KEY)
  {
    SplitCons("a", '=', "1");
    assert other == "a" + ['='] + "1";
  }

  /** `code=FIRST&code=SECOND` yields `FIRST`. */
  lemma ExampleDuplicateKey(first: string, second: string)
    requires '&' !in first && '=' !in first
    ensures ScanParams(Split(CODE_KEY + ['='] + first + ['&'] + CODE_KEY + ['='] + second, '&'), CODE_KEY) == Ok(first)
  {
    CodeKeyPlain();
    var param := CODE_KEY + ['='] + first;
    var s := param + ['&'] + (CODE_KEY + ['='] + second);
    assert s == CODE_KEY + ['='] + first + ['&'] + CODE_KEY + ['='] + second;
    SplitCons(param, '&', CODE_KEY + ['='] + second);
    SplitCons(CODE_KEY, '=', first);
    SplitNoSep(first, '=');
  }

  // ---------------------------------------------------------------------------
  // The AuthorizationToken accessors

  /** A mobile response yields exactly the tokens of its nested result, and
      none at all without one; absence is a value, never an error. */
  lemma MobileTokens(result: PdsLoginResult)
    ensures MobileLoginResponse(Some(result)).AccessToken() == result.accessToken
    ensures MobileLoginResponse(Some(result)).RefreshToken() == result.refreshToken
    ensures MobileLoginResponse(None).AccessToken() == None
    ensures MobileLoginResponse(None).RefreshToken() == None
  {
  }

  /** The web accessors and get_drive_id depend on their own field only: two
      responses that agree on it give the same answer whatever their profile
      fields hold. */
  lemma WebAccessorsReadOneField(a: WebLoginResponse, b: WebLoginResponse)
    ensures a.accessToken == b.accessToken ==> a.AccessToken() == b.AccessToken()
    ensures a.refreshToken == b.refreshToken ==> a.RefreshToken() == b.RefreshToken()
    ensures a.defaultDriveId == b.defaultDriveId ==> a.GetDriveId() == b.GetDriveId()
  {
  }
}
