/**
 The state-block filter of stateblock.go: a Traefik middleware that admits a
 request or answers 403 according to where its client address is located.
 The filter is built once from its configuration (`New`) and then decides
 every request the same way (`ServeHTTP`):

   1. derive the client address from `X-Forwarded-For` or the peer address;
   2. a whitelisted address goes to the next handler untouched;
   3. an address that does not parse, or that the geo database cannot look
      up, goes to the next handler as well (fail-open);
   4. a record outside the US is refused;
   5. a US record is refused when its first subdivision is a blocked state,
      and also when it carries no subdivision at all (fail-closed).

 The geo database and Go's address parser are not modelled: they are the
 parameters `lookup` and `parses`, and whether the database file opens is
 the parameter `opens`.
 */
module StateBlock {
  import opened GoStrings
  import opened GoNet

  /** The plugin configuration, as the host proxy deserialises it. */
  datatype Config = Config(blockedStates: seq<string>, whitelistedIPs: seq<string>, dbPath: string)

  const DefaultDBPath: string := "/plugins-local/geoip.mmdb"

  /** `CreateConfig`: no blocked state, no whitelisted address, the bundled database path. */
  function CreateConfig(): (c: Config)
    ensures c.blockedStates == [] && c.whitelistedIPs == []
    ensures c.dbPath == "/plugins-local/geoip.mmdb" && c.dbPath != ""
  {
    Config([], [], DefaultDBPath)
  }

  /**
   A constructed filter. The blocked states are held upper-cased and the
   whitelisted addresses verbatim, each as a set; the open database itself
   is the `lookup` parameter of `ServeHTTP`.
   */
  datatype Handler = Handler(blockedStates: set<string>, whitelistedIPs: set<string>, name: string)

  /** Why `New` refuses to build a filter. */
  datatype ConfigError =
    | EmptyDBPath               // "dbPath cannot be empty"
    | DatabaseOpenFailed(path: string)  // "failed to open geoip database: ..."

  datatype NewResult = Built(handler: Handler) | Failed(error: ConfigError)

  /** The set of the upper-cased forms of the configured state codes. */
  function BlockedStateSet(states: seq<string>): (m: set<string>)
    ensures forall code :: code in m <==> exists i :: 0 <= i < |states| && ToUpper(states[i]) == code
  {
    if states == [] then {}
    else
      var init := states[..|states| - 1];
      assert forall i :: 0 <= i < |init| ==> init[i] == states[i];
      BlockedStateSet(init) + {ToUpper(states[|states| - 1])}
  }

  /** The set of the configured addresses, stored exactly as written. */
  function WhitelistSet(ips: seq<string>): (m: set<string>)
    ensures forall ip :: ip in m <==> ip in ips
  {
    if ips == [] then {}
    else
      var init := ips[..|ips| - 1];
      assert ips == init + [ips[|ips| - 1]];
      WhitelistSet(init) + {ips[|ips| - 1]}
  }

  /**
   `New`: refuses an empty database path before anything else, then
   refuses a database that does not open; otherwise builds the filter.
   */
  function New(config: Config, name: string, opens: string -> bool): (r: NewResult)
    ensures config.dbPath == "" ==> r == Failed(EmptyDBPath)
    ensures config.dbPath != "" && !opens(config.dbPath) ==> r == Failed(DatabaseOpenFailed(config.dbPath))
    ensures r.Built? <==> config.dbPath != "" && opens(config.dbPath)
    ensures r.Built? ==> forall code :: code in r.handler.blockedStates <==>
      exists i :: 0 <= i < |config.blockedStates| && ToUpper(config.blockedStates[i]) == code
    ensures r.Built? ==> forall ip :: ip in r.handler.whitelistedIPs <==> ip in config.whitelistedIPs
    ensures r.Built? ==> r.handler.name == name
  {
    if config.dbPath == "" then Failed(EmptyDBPath)
    else if !opens(config.dbPath) then Failed(DatabaseOpenFailed(config.dbPath))
    else Built(Handler(BlockedStateSet(config.blockedStates), WhitelistSet(config.whitelistedIPs), name))
  }

  /**
   What the filter reads from a request: the value `Header.Get` returns for
   `X-Forwarded-For` (empty when the header is absent) and `RemoteAddr`.
   */
  datatype Request = Request(forwardedFor: string, remoteAddr: string)

  /** The first comma-separated entry of a forwarded-for list, trimmed. */
  function FirstForwardedEntry(xff: string): (ip: string)
    ensures ',' !in ip && (ip == [] || (!IsSpace(ip[0]) && !IsSpace(ip[|ip| - 1])))
  {
    var parts := Split(xff, ',');
    var ip := TrimSpace(parts[0]);
    assert ',' !in ip by {
      var lead: nat :| TrimmedAt(parts[0], ip, lead);
      assert ip == parts[0][lead..lead + |ip|];
    }
    ip
  }

  /** The host of a peer address, or the empty string when it does not split. */
  function PeerHost(remoteAddr: string): (ip: string)
    ensures NoBrackets(ip)
    ensures ip != "" ==> ip + ":" <= remoteAddr || "[" + ip + "]:" <= remoteAddr
  {
    match SplitHostPort(remoteAddr)
    case HostPort(host, port) =>
      assert remoteAddr == host + ":" + port || remoteAddr == "[" + host + "]:" + port;
      host
    case AddrErr(_) => ""
  }

  /**
   `getRemoteIP`: the first comma-separated entry of a non-empty
   `X-Forwarded-For`, trimmed; otherwise the host of the peer address, or the
   empty string when the peer address does not split.
   */
  function GetRemoteIP(req: Request): (ip: string)
    ensures req.forwardedFor != "" ==> ',' !in ip && (ip == [] || (!IsSpace(ip[0]) && !IsSpace(ip[|ip| - 1])))
    ensures req.forwardedFor == "" ==> NoBrackets(ip)
    ensures req.forwardedFor == "" && ip != "" ==>
      ip + ":" <= req.remoteAddr || "[" + ip + "]:" <= req.remoteAddr
  {
    if req.forwardedFor != "" then
      var ip := FirstForwardedEntry(req.forwardedFor);
      assert ',' !in ip && (ip == [] || (!IsSpace(ip[0]) && !IsSpace(ip[|ip| - 1])));
      ip
    else
      var ip := PeerHost(req.remoteAddr);
      assert NoBrackets(ip) && (ip != "" ==> ip + ":" <= req.remoteAddr || "[" + ip + "]:" <= req.remoteAddr);
      ip
  }

  /** A geo-database record: the country code and the subdivision codes, most general first. */
  datatype GeoRecord = GeoRecord(country: string, subdivisions: seq<string>)

  /** The outcome of `db.City`: an error, or the record found. */
  datatype LookupResult = LookupError | Found(record: GeoRecord)

  /** What the filter does with the request: hand it on, or answer with status 403 and a body. */
  datatype Response = PassToNext | Forbidden(body: string)

  /** The response, and whether the geo database was asked about the address. */
  datatype Decision = Decision(response: Response, consultedLookup: bool)

  const NonUSBody: string := "Access restricted to specific US states only."
  const StateDeniedPrefix: string := "Access denied from state: "

  /**
   The policy of `ServeHTTP` for an already derived address `ip`. The
   database is asked only about addresses that are not whitelisted and that
   parse; every refusal rests on a record it returned.
   */
  function Decide(h: Handler, ip: string, parses: string -> bool, lookup: string -> LookupResult): (d: Decision)
    ensures d.consultedLookup <==> ip !in h.whitelistedIPs && parses(ip)
    ensures d.response.Forbidden? ==> d.consultedLookup && lookup(ip).Found?
    ensures d.response.Forbidden? && lookup(ip).record.country != "US" ==> d.response.body == NonUSBody
    ensures d.response.Forbidden? && lookup(ip).record.country == "US" ==>
      var subdivisions := lookup(ip).record.subdivisions;
      if |subdivisions| == 0 then d.response.body == ""
      else subdivisions[0] in h.blockedStates && d.response.body == StateDeniedPrefix + subdivisions[0]
  {
    if ip in h.whitelistedIPs then Decision(PassToNext, false)
    else if !parses(ip) then Decision(PassToNext, false)
    else match lookup(ip)
      case LookupError => Decision(PassToNext, true)
      case Found(record) =>
        // First every country other than the US is refused ...
        if record.country != "US" then Decision(Forbidden(NonUSBody), true)
        // ... then a US record is judged by its first subdivision ...
        else if |record.subdivisions| > 0 then
          var code := record.subdivisions[0];
          if code in h.blockedStates then Decision(Forbidden(StateDeniedPrefix + code), true)
          else Decision(PassToNext, true)
        // ... and a US record without one is refused with an empty body.
        else Decision(Forbidden(""), true)
  }

  /** `ServeHTTP`: derive the client address, then apply the policy to it. */
  function ServeHTTP(h: Handler, req: Request, parses: string -> bool, lookup: string -> LookupResult): (d: Decision)
    ensures d.consultedLookup ==> GetRemoteIP(req) !in h.whitelistedIPs && parses(GetRemoteIP(req))
    ensures d.response.Forbidden? ==> lookup(GetRemoteIP(req)).Found?
  {
    Decide(h, GetRemoteIP(req), parses, lookup)
  }
}
