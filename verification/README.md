# State-block filter: a Dafny model

This project models the request-admission decision of `stateblock.go`. That file is a Traefik
middleware plugin. It admits an HTTP request, or answers it with 403 Forbidden, according to
where the client's IP address is located. All of it is written as pure functions:

- `StateBlock.New` turns the plugin `Config` into a `Handler`. It refuses an empty database
  path. It then refuses a database that does not open. Otherwise it stores the blocked state
  codes upper-cased and the whitelisted addresses verbatim, each as a set.
- `StateBlock.GetRemoteIP` derives the client address. If `X-Forwarded-For` is non-empty, the
  address is the first comma-separated entry, trimmed. Otherwise it is the host part of
  `RemoteAddr`, or `""` when `net.SplitHostPort` refuses it.
- `StateBlock.Decide` and `StateBlock.ServeHTTP` apply the checks in the code's order:
  1. A whitelisted address goes to the next handler.
  2. An address that does not parse goes to the next handler.
  3. A lookup error goes to the next handler.
  4. A country other than `"US"` gets 403 with a fixed body.
  5. For a US record, the first subdivision is checked against the blocked set.
  6. A US record without any subdivision gets 403 with an empty body.

  The outcome is `PassToNext | Forbidden(body)`. It comes with a flag that says whether the geo
  database was consulted.

The Go library functions the filter calls are modelled in their own modules:
- `GoStrings`: `strings.ToUpper` (ASCII), `strings.TrimSpace` with `IsSpace` as `unicode.IsSpace`,
  `strings.Split` with `Join` as `strings.Join`, and byte index search.
- `GoNet`: `net.SplitHostPort` following Go's algorithm, and `net.JoinHostPort` as its inverse.
  Go's `net` package source is not part of this model. Its behaviour is taken from the Go
  standard library, branch by branch, including the error reasons.

Some collaborators are parameters rather than models:
- The geo database is `lookup: string -> LookupResult`, where
  `LookupResult = LookupError | Found(GeoRecord(country, subdivisions))`. `db.City` is called
  on the parsed address. Keying the lookup on the address text is at least as general, because
  the parsed address is a function of that text. `Found` means only that `db.City` returned
  a record without error. It does not mean the address is present in the database. The geoip2
  library returns an empty record, without error, for an address it does not know.
  That case is `Found(GeoRecord("", []))`, and the model does not exclude it. Such a record has
  country `""`, so it meets the non-US gate and gets the fixed 403 instead of failing open.
- `netip.ParseAddr` is `parses: string -> bool`.
- Whether `geoip2.Open` succeeds is `opens: string -> bool`.

What `stateblock.go` does not do, and the model therefore does not do either:
- It reads no `CF-Connecting-IP` header, and it has no path-prefix whitelist, no decision cache
  and no HTML template.
- When `SplitHostPort` fails, the derived address is `""`, not the raw peer address.
- A non-US 403 has the fixed body "Access restricted to specific US states only." It does not
  name the country.
- A US record without a subdivision gets a 403 with an empty body and no reason text.
- No `Content-Type` header is set.

The repository's test sets a `TemplatePath` field that `Config` does not have, and it expects a
`text/html` content type. So that test was written for another version. Only its whitelist and
state cases are modelled (`WhitelistedTestClients`, `StateTestClients`).

## Model

| member | source | states |
|---|---|---|
| GoStrings.UpperChar | stateblock.go:48 | The result is never a lower-case ASCII letter. A lower-case letter moves down by 32 code points. Every other character is unchanged. |
| GoStrings.ToUpper | stateblock.go:48 | Upper-casing keeps the length. It maps each character through `UpperChar`, so no lower-case ASCII letter is left. |
| GoStrings.ToUpperFixedPoints | stateblock.go:48 | Upper-casing leaves a string unchanged exactly when the string holds no lower-case ASCII letter. |
| GoStrings.ToUpperIdempotent | stateblock.go:48 | Upper-casing twice gives the same result as upper-casing once. |
| GoStrings.TrimLeftSpace | stateblock.go:116 | The result is a suffix of the input. Everything dropped is white space, and the result does not start with white space. |
| GoStrings.TrimRightSpace | stateblock.go:116 | The result is a prefix of the input. Everything dropped is white space, and the result does not end with white space. |
| GoStrings.TrimSpace | stateblock.go:116 | The result occurs in the input with only Unicode white space before and after it. It neither starts nor ends with white space. |
| GoStrings.TrimIsUnique | stateblock.go:116 | Two strings that both trim the same input are equal, so `TrimSpace` is the only trim. |
| GoStrings.TrimSpaceIdempotent | stateblock.go:116 | Trimming a trimmed string changes nothing. |
| GoStrings.Split | stateblock.go:115 | Splitting on a separator gives at least one part (so `parts[0]` always exists). No part holds the separator, and joining the parts with the separator gives back the input. |
| GoStrings.SplitFirst | stateblock.go:115-116 | The first part of a split is the prefix of the input before its first separator. |
| GoStrings.SplitPrefix | stateblock.go:115 | A separator-free prefix is glued onto the first part of the split of the rest. |
| GoStrings.SplitJoin | stateblock.go:115 | Splitting undoes joining, for every non-empty list of separator-free parts. |
| GoStrings.Index | stateblock.go:119 | Returns the first position of the character, or -1 exactly when the character does not occur. |
| GoStrings.LastIndex | stateblock.go:119 | Returns the last position of the character, or -1 exactly when the character does not occur. |
| GoNet.SplitHostPort | stateblock.go:119 | Input without a colon is refused as a missing port. An accepted input is `host:port` with a colon-free host, or `[host]:port`. The port has no colon, and neither part has a bracket. |
| GoNet.SplitBracketed | stateblock.go:119 | In the bracketed branch, an accepted input is exactly `[host]:port` with no stray bracket and no colon in the port. |
| GoNet.SplitPlain | stateblock.go:119 | In the unbracketed branch, an accepted input has exactly one colon, which separates host and port, and no bracket. |
| GoNet.SplitPlainHostPort | stateblock.go:119 | `host:port` with colon-free, bracket-free parts splits into that host and port. An empty port is allowed. |
| GoNet.SplitBracketedHostPort | stateblock.go:119 | `[host]:port` with a bracket-free host and a colon-free, bracket-free port splits into that host and port. The host may contain colons. |
| GoNet.SplitJoinHostPort | stateblock.go:119 | `SplitHostPort` undoes `JoinHostPort` for every bracket-free host and every colon-free, bracket-free port. |
| GoNet.TwoColonsUnbracketed | stateblock.go:119 | Input that does not start with '[' and holds two colons is refused with "too many colons". |
| StateBlock.CreateConfig | stateblock.go:20-26 | The default configuration blocks no state, whitelists no address, and has the database path "/plugins-local/geoip.mmdb", which is not empty. |
| StateBlock.BlockedStateSet | stateblock.go:46-49 | A code is in the blocked set exactly when it is the upper-cased form of some configured state. |
| StateBlock.WhitelistSet | stateblock.go:51-54 | An address is in the whitelist set exactly when it is one of the configured strings, unnormalised. |
| StateBlock.New | stateblock.go:36-63 | An empty database path gives `EmptyDBPath` before the database is opened. A database that does not open gives `DatabaseOpenFailed`. Otherwise the handler is built with the upper-cased state set, the verbatim whitelist set and the given name. |
| StateBlock.FirstForwardedEntry | stateblock.go:114-117 | The derived address holds no comma and has no white space at either end. |
| StateBlock.PeerHost | stateblock.go:119-120 | The host holds no bracket, and when non-empty it is what precedes the port in the peer address, bracketed or not. |
| StateBlock.GetRemoteIP | stateblock.go:112-121 | With a non-empty `X-Forwarded-For`, the address has no comma and no white space at either end. Otherwise it has no bracket, and when non-empty it is the host before the port in `RemoteAddr`, bracketed or not. |
| StateBlock.Decide | stateblock.go:65-110 | The database is consulted exactly when the address is not whitelisted and parses. Every 403 rests on a record the lookup returned without error. A non-US 403 has the fixed body. A US 403 has an empty body when there is no subdivision; otherwise the first subdivision is blocked and the body is "Access denied from state: " followed by that code. |
| StateBlock.ServeHTTP | stateblock.go:65-66 | The decision uses the derived address. A lookup happens only for a non-whitelisted address that parses, and a 403 happens only when the lookup returned a record without error. |
| StateBlockProperties.EmptyDBPathBuildsNothing | stateblock.go:37-39 | An empty path gives `EmptyDBPath`, whatever the database-open collaborator would do. |
| StateBlockProperties.DefaultConfigBuilds | stateblock.go:20-26 | The default configuration builds exactly when "/plugins-local/geoip.mmdb" opens. It blocks no state and whitelists no address. |
| StateBlockProperties.BlockedStatesUpperCased | stateblock.go:46-49 | Every stored code is its own upper-cased form, and every configured code is stored upper-cased. |
| StateBlockProperties.LowerCaseRecordCodeNeverBlocked | stateblock.go:90-92 | Record codes are not upper-cased. A US record whose first subdivision holds a lower-case ASCII letter is never refused by the state list of a built filter. |
| StateBlockProperties.ConfiguredCodeCaseExample | stateblock.go:46-49 | With "ca" configured, a record code "CA" gets 403 "Access denied from state: CA", while a record code "ca" is passed on. |
| StateBlockProperties.ForwardedForFirstEntry | stateblock.go:114-117 | A non-empty `X-Forwarded-For` gives the trim of its text before the first comma, whatever `RemoteAddr` is. |
| StateBlockProperties.ForwardedForChain | stateblock.go:114-117 | An already-trimmed first entry followed by a comma is returned unchanged. |
| StateBlockProperties.ForwardedForChainExample | stateblock.go:114-117 | "1.2.3.4, 5.6.7.8" gives "1.2.3.4". |
| StateBlockProperties.PeerAddressFallback | stateblock.go:119-120 | Without `X-Forwarded-For`, the address is the split host of `RemoteAddr`, or "" when the split fails. |
| StateBlockProperties.PeerAddressShapes | stateblock.go:119-120 | A plain `host:port` peer gives that host, and a peer without a colon gives "". |
| StateBlockProperties.WhitelistHitSkipsLookup | stateblock.go:68-72 | A whitelisted address is passed on with no lookup, whatever the parser and the database say. |
| StateBlockProperties.UnconsultedLookupIsIrrelevant | stateblock.go:68-76 | When the database is not consulted, replacing it with any other database leaves the decision unchanged. |
| StateBlockProperties.ParseFailureFailsOpen | stateblock.go:74-76 | An address that does not parse is passed on with no lookup (fail-open). |
| StateBlockProperties.LookupErrorFailsOpen | stateblock.go:77-79 | A lookup error passes the request on (fail-open). |
| StateBlockProperties.MalformedPeerAddressFailsOpen | stateblock.go:109-121 | A refused `RemoteAddr` without `X-Forwarded-For` gives "". Since "" does not parse, the request is passed on with no lookup. |
| StateBlockProperties.NonUSAlwaysRefused | stateblock.go:81-87 | A non-US record gets 403 "Access restricted to specific US states only.". No blocked-state set can change that. |
| StateBlockProperties.USStateDecision | stateblock.go:89-99 | A US record with a subdivision gets 403 "Access denied from state: " + code exactly when its first code is blocked. Otherwise it is passed on. |
| StateBlockProperties.OnlyFirstSubdivisionConsulted | stateblock.go:90-91 | Records that agree on country and first subdivision are decided alike, whatever their other subdivisions. |
| StateBlockProperties.USWithoutStateFailsClosed | stateblock.go:100-105 | A US record with no subdivision gets 403 with an empty body, never passed on (fail-closed). |
| StateBlockProperties.DecideFollowsPolicy | stateblock.go:65-110 | A request gets 403 exactly when its address is not whitelisted, parses and is found, and the record is non-US, US without a subdivision, or US in a blocked state. |
| StateBlockProperties.WhitelistedPeer | stateblock.go:66-72 | A whitelisted `host:port` peer is passed on with no lookup. |
| StateBlockProperties.WhitelistedTestClients | stateblock_test.go:26-68 | In the test's configuration, peers "1.2.3.4:1234" and "140.228.62.31:1234" are passed on with no lookup. This holds even when the database would place them abroad. |
| StateBlockProperties.StateTestClients | stateblock_test.go:48-58 | With "CA" blocked, a California record gets 403 naming "CA", and a New York record is passed on. |

## Left out

- GoStrings.ToUpper: only ASCII letters are upper-cased. Go's `strings.ToUpper` also maps non-ASCII letters through the Unicode case tables. State codes are ASCII, so this model does not cover that mapping.
- GoStrings.TrimSpace: strings are sequences of Unicode scalar values. Go's treatment of invalid UTF-8 bytes in `TrimSpace` is not modelled.
- `geoip2.Open`, `db.City` and the MaxMind database format are external libraries whose source is not part of this model. They are the parameters `opens` and `lookup`.
- `netip.ParseAddr` is an external library and is the parameter `parses`. The only thing assumed about it is that it refuses "" (in `MalformedPeerAddressFailsOpen`), as Go's parser does.
- `vendor/github.com/oschwald/maxminddb-golang/shim_pure.go` only reads the database file and stubs out mmap. It is I/O with no decision logic.
- The error texts of `New` and `net.SplitHostPort` are named by datatype constructors. The wrapped `%w` cause of a database-open failure is not modelled.
- `net/http` plumbing is not modelled: `ResponseWriter`, status writing and the call to `next`. `Forbidden(body)` means status 403 plus that body, and `PassToNext` means `next.ServeHTTP` is called. `Header.Get` is represented by the single value it returns, so header canonicalisation and repeated headers are left out.
- The `fmt.Printf` logging is not modelled. `name` is only stored, because the code uses it only for logging.
- The `context.Context` argument of `New` is unused by the code.
- There is no concurrency to model, because the handler is read-only after `New`.
