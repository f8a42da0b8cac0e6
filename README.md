# Login-response tokens and authorization-code extraction (aliyundrive-cli)

This project models the response records of aliyundrive-cli's QR-code/web login flow
(`src/drive/src/scan/model/suc.rs`). It proves what their accessors and the
authorization-code extraction promise. There are three parts:

- `GotoResponse` holds an optional redirect target (`goto`).
  `From<&String>` wraps a string as that target.
  `extract_authorization_code` parses the target as a URL, takes its raw query,
  and scans it for the `code` parameter:
  - the query is split on every `&`;
  - each parameter is split on every `=`;
  - the first parameter whose piece 0 is `code` decides the result;
  - the result is that parameter's piece 1, returned undecoded, or an error when the parameter has no piece 1;
  - when no parameter matches, the result is "Failed to get authorization code".
- `MobileLoginResponse` reaches its tokens through two optional levels:
  the record, then an optional `PdsLoginResult`, then an optional token.
  `WebLoginResponse` returns its flat optional token fields and its `default_drive_id` as stored.
- `RefreshTokenResponse` is a plain record with mandatory fields.

Files:
- `rust_str.dfy` (module `RustStr`) models Rust's `str::split` with a one-character
  pattern. It always yields at least one piece, and no piece contains the separator.
  Split and `Join` are inverses of each other. Every piece occurs in the input.
- `suc.dfy` (module `Suc`) holds the records, the error kinds, the accessors, the
  recursive reference scan `ScanParams`, and `GotoResponse.ExtractAuthorizationCode`.
  That method is the source's `for` loop with early returns, proved equal to the
  specification function `AuthorizationCode`.
- `suc_properties.dfy` (module `SucProperties`) holds the lemmas: first match decides,
  not-found iff no key matches, later duplicates are ignored, the value is the text
  between the first and second `=` and a substring of the raw query, each error exit
  with its exact cause, and worked queries.

URL parsing (`reqwest::Url::parse` followed by `url.query()`) comes from a library outside this model.
It is a parameter `parse: string -> UrlQuery`. The result is either `Unparsable` or
`Parsed(query)` with an optional raw query string. `CODE_KEY` is defined outside the
modelled file; here it is the constant `"code"`.

Behaviour worth noting:
- A parameter is split on every `=` and piece 1 is returned, so `code=a=b` yields `a`.
- A parameter with an empty key does not match and is skipped; it is never an error.
- The "goto query param key is None" exit (suc.rs:31-33) cannot fire.
  Split always yields at least one piece (`Split` ensures `|pieces| >= 1`), so the
  model has no error kind for it.

## Model

| member | source | states |
|---|---|---|
| RustStr.Split | src/drive/src/scan/model/suc.rs:27-30 | `split` yields at least one piece; no piece contains the separator; piece 0 is the text before the first separator |
| RustStr.SplitManyIff | src/drive/src/scan/model/suc.rs:35-37 | there is a piece 1 exactly when the separator occurs, so `get(1)` fails only for a parameter without `=` |
| RustStr.JoinSplit | src/drive/src/scan/model/suc.rs:27 | splitting loses nothing: joining the pieces with the separator gives back the input |
| RustStr.SplitJoin | src/drive/src/scan/model/suc.rs:30 | splitting the join of separator-free pieces gives back exactly those pieces |
| RustStr.SplitSecondPiece | src/drive/src/scan/model/suc.rs:35-38 | piece 1 is the text strictly between the first and the second separator |
| RustStr.SplitPieceIsSubstring | src/drive/src/scan/model/suc.rs:27-30 | each piece of a split occurs as a contiguous run of the split string |
| Suc.Decide | src/drive/src/scan/model/suc.rs:35-38 | a matched parameter yields a value iff it contains `=`, otherwise the "param value is None" error; the value holds no `=` |
| Suc.ScanParams | src/drive/src/scan/model/suc.rs:28-41 | the scan fails only with "param value is None" or "authorization code not found"; an empty query list is "not found"; a value holds no `=` |
| Suc.GotoResponse.From | src/drive/src/scan/model/suc.rs:14-20 | the constructed response's goto is exactly `Some(token)` |
| Suc.GotoResponse.ExtractAuthorizationCode | src/drive/src/scan/model/suc.rs:23-42 | the loop with early returns computes exactly the specification `AuthorizationCode`; no goto gives the goto-None error |
| Suc.MobileLoginResponse.AccessToken | src/drive/src/scan/model/suc.rs:52-56 | `Some(v)` iff the nested result is present and its access token is `Some(v)`; otherwise `None`, never an error |
| Suc.MobileLoginResponse.RefreshToken | src/drive/src/scan/model/suc.rs:58-62 | `Some(v)` iff the nested result is present and its refresh token is `Some(v)`; otherwise `None` |
| Suc.WebLoginResponse.GetDriveId | src/drive/src/scan/model/suc.rs:226-230 | returns the `default_drive_id` field unchanged |
| Suc.WebLoginResponse.AccessToken | src/drive/src/scan/model/suc.rs:233-235 | returns the `access_token` field unchanged |
| Suc.WebLoginResponse.RefreshToken | src/drive/src/scan/model/suc.rs:237-239 | returns the `refresh_token` field unchanged |
| SucProperties.ScanFirstMatchDecides | src/drive/src/scan/model/suc.rs:28-38 | the first parameter whose key is `code` alone decides the outcome |
| SucProperties.ScanFindsFirstMatch | src/drive/src/scan/model/suc.rs:34-38 | any outcome other than "not found" comes from the first matching parameter, and yields what that parameter decides |
| SucProperties.ScanNotFoundIff | src/drive/src/scan/model/suc.rs:41 | the scan reports "not found" iff no parameter's key matches |
| SucProperties.ScanIgnoresLater | src/drive/src/scan/model/suc.rs:38 | once some parameter matches, appending parameters never changes the outcome, so later duplicates are ignored |
| SucProperties.ScanSkipsOtherKey | src/drive/src/scan/model/suc.rs:31-34 | a parameter with another key, for example an empty one, is skipped, never an error |
| SucProperties.EmptyKeySkipped | src/drive/src/scan/model/suc.rs:31-34 | a parameter with an empty key is skipped by the scan for `code`: the outcome is that of the parameters after it |
| SucProperties.DecideValue | src/drive/src/scan/model/suc.rs:35-38 | a matched value is the text between the parameter's first and second `=`, occurs in the parameter and holds no `=` |
| SucProperties.GotoNoneBeforeParsing | src/drive/src/scan/model/suc.rs:24-25 | without a goto the result is the goto-None error whatever the URL parser would return |
| SucProperties.ExtractionErrors | src/drive/src/scan/model/suc.rs:24-41 | each of goto-None, URL-parse error, query-None and not-found happens exactly in its own situation |
| SucProperties.ExtractionValueMissing | src/drive/src/scan/model/suc.rs:35-37 | "param value is None" exactly when the first `code` parameter has no `=`, whatever follows it |
| SucProperties.ExtractionSuccess | src/drive/src/scan/model/suc.rs:27-38 | a returned code comes from the first `code` parameter's text between its first and second `=`; it is undecoded, a substring of the raw query, and holds neither `&` nor `=` |
| SucProperties.ExtractionFromFirstMatch | src/drive/src/scan/model/suc.rs:34-38 | when the first `code` parameter holds `=`, extraction succeeds with its piece 1 |
| SucProperties.FromRoundTrip | src/drive/src/scan/model/suc.rs:14-20 | reading back the goto of a response built from `s` gives `s`; extraction from it never reports a missing goto |
| SucProperties.ExampleValueStopsAtSecondEquals | src/drive/src/scan/model/suc.rs:30-38 | `code=a=b` yields `a` for every `=`-free `a` |
| SucProperties.ExampleBareKeyFails | src/drive/src/scan/model/suc.rs:34-37 | a bare `code` parameter fails with "param value is None" whatever follows it, even a later `code=X` |
| SucProperties.ExampleMiddleParameter | src/drive/src/scan/model/suc.rs:27-38 | `other&code=v&rest` yields `v` when `other` has another key, as in `a=1&code=ABC123&b=2` |
| SucProperties.ExampleLiteralQuery | src/drive/src/scan/model/suc.rs:27-38 | the query `a=1&code=ABC123&b=2` yields `ABC123` |
| SucProperties.ExampleDuplicateKey | src/drive/src/scan/model/suc.rs:28-38 | `code=FIRST&code=SECOND` yields `FIRST` |
| SucProperties.MobileTokens | src/drive/src/scan/model/suc.rs:51-63 | a mobile response yields exactly its nested result's tokens, and `None` for both tokens without a nested result |
| SucProperties.WebAccessorsReadOneField | src/drive/src/scan/model/suc.rs:226-240 | each web accessor depends only on its own field: responses that agree on it give the same answer whatever their profile fields hold |

## Left out

- URL parsing: `Url::parse` and `url.query()` follow the WHATWG URL Standard, with its own normalisation and percent-encoding. They are the parameter `parse`, with no interpretation.
- Error messages: the `anyhow` errors are the variants of `CodeError`. The payload of the URL parser's own error is not modelled.
- The "goto query param key is None" exit (suc.rs:31-33) has no variant, because it cannot be reached (see above).
- `AuthorizationToken` is a trait declared outside the modelled file. Here it is the member functions `AccessToken` and `RefreshToken` on each response type. Nothing abstracts over both types.
- Wire decoding: serde's field renames and `#[serde(default)]` are left out. The records have plain `Option` fields, and the concrete JSON names are not modelled.
- Ownership: `get_drive_id(self)` consumes the record, the token accessors borrow it, and `to_string()`/`cloned()` copy the strings. All of these are value semantics on immutable datatypes here; the accessors never modify the record, and with immutable datatypes this holds by construction.
- Strings: Rust strings are UTF-8 byte strings; here they are `seq<char>`. The separators `&` and `=` are ASCII, so splitting on them is not affected.
- The profile fields of `PdsLoginResult`, `UserData` and `WebLoginResponse`, and the `i64`/`u64` expiry fields, are carried in the records but have no behaviour. `RefreshTokenResponse` is only a datatype.
- `examples/time.rs` is not part of this model: it is RFC 3339 date parsing, time-zone conversion and console output.
