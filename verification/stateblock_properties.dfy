/**
 Properties of the state-block filter: how `New` normalises its
 configuration, where the client address comes from, and the order of the
 checks in `ServeHTTP`, including which failures admit a request (fail-open)
 and which refuse it (fail-closed).
 */
module StateBlockProperties {
  import opened GoStrings
  import opened GoNet
  import opened StateBlock

  // ---------------------------------------------------------------------
  // Construction

  /** An empty database path is refused before the database is opened at all. */
  lemma EmptyDBPathBuildsNothing(config: Config, name: string, opens: string -> bool)
    requires config.dbPath == ""
    ensures New(config, name, opens) == Failed(EmptyDBPath)
    ensures forall other: string -> bool :: New(config, name, other) == New(config, name, opens)
  {
  }

  /** The default configuration builds exactly when the bundled database opens, and blocks nothing. */
  lemma DefaultConfigBuilds(name: string, opens: string -> bool)
    ensures New(CreateConfig(), name, opens).Built? <==> opens("/plugins-local/geoip.mmdb")
    ensures New(CreateConfig(), name, opens).Built? ==>
      var h := New(CreateConfig(), name, opens).handler;
      h.blockedStates == {} && h.whitelistedIPs == {}
  {
  }

  /** Every stored state code is upper case, and every configured code is stored upper-cased. */
  lemma BlockedStatesUpperCased(config: Config, name: string, opens: string -> bool)
    requires New(config, name, opens).Built?
    ensures var h := New(config, name, opens).handler;
      && (forall code :: code in h.blockedStates ==> ToUpper(code) == code)
      && (forall i :: 0 <= i < |config.blockedStates| ==> ToUpper(config.blockedStates[i]) in h.blockedStates)
  {
    var h := New(config, name, opens).handler;
    forall code | code in h.blockedStates
      ensures ToUpper(code) == code
    {
      var i :| 0 <= i < |config.blockedStates| && ToUpper(config.blockedStates[i]) == code;
      ToUpperIdempotent(config.blockedStates[i]);
    }
  }

  /**
   Codes from the database are compared as returned: a US record whose
   first subdivision holds a lower-case ASCII letter is never refused by the
   state list of a built filter, whatever that list says.
   */
  lemma LowerCaseRecordCodeNeverBlocked(
    config: Config, name: string, opens: string -> bool,
    ip: string, parses: string -> bool, lookup: string -> LookupResult, j: nat)
    requires New(config, name, opens).Built?
    requires lookup(ip).Found? && lookup(ip).record.country == "US"
    requires |lookup(ip).record.subdivisions| > 0
    requires j < |lookup(ip).record.subdivisions[0]| && IsAsciiLower(lookup(ip).record.subdivisions[0][j])
    ensures Decide(New(config, name, opens).handler, ip, parses, lookup).response == PassToNext
  {
    var code := lookup(ip).record.subdivisions[0];
    BlockedStatesUpperCased(config, name, opens);
    assert ToUpper(code)[j] != code[j];
  }

  /** Configuring "ca" blocks a record code "CA" but not a record code "ca". */
  lemma ConfiguredCodeCaseExample(name: string, opens: string -> bool, ip: string, parses: string -> bool)
    requires opens(DefaultDBPath) && parses(ip)
    ensures var h := New(Config(["ca"], [], DefaultDBPath), name, opens).handler;
      && Decide(h, ip, parses, _ => Found(GeoRecord("US", ["CA"]))).response
         == Forbidden("Access denied from state: CA")
      && Decide(h, ip, parses, _ => Found(GeoRecord("US", ["ca"]))).response == PassToNext
  {
    var h := New(Config(["ca"], [], DefaultDBPath), name, opens).handler;
    assert ToUpper("ca") == "CA";
    assert h.blockedStates == {"CA"};
    assert "ca" != "CA" by { assert "ca"[0] != "CA"[0]; }
  }

  // ---------------------------------------------------------------------
  // Client address

  /**
   A non-empty `X-Forwarded-For` decides the address alone: it is the trim
   of the text before its first comma, whatever the peer address is.
   */
  lemma {:induction false} ForwardedForFirstEntry(req: Request, first: string)
    requires req.forwardedFor != ""
    requires |first| <= |req.forwardedFor| && first == req.forwardedFor[..|first|] && ',' !in first
    requires |first| == |req.forwardedFor| || req.forwardedFor[|first|] == ','
    ensures GetRemoteIP(req) == TrimSpace(first)
    ensures forall peer :: GetRemoteIP(Request(req.forwardedFor, peer)) == GetRemoteIP(req)
  {
    var xff := req.forwardedFor;
    var p0 := Split(xff, ',')[0];
    SplitFirst(xff, ',');
    assert forall k :: 0 <= k < |p0| ==> xff[k] != ',' by {
      forall k | 0 <= k < |p0| ensures xff[k] != ',' { assert xff[k] == p0[k]; }
    }
    assert forall k :: 0 <= k < |first| ==> xff[k] != ',' by {
      forall k | 0 <= k < |first| ensures xff[k] != ',' { assert xff[k] == first[k]; }
    }
    assert |p0| == |first|;
  }

  /** An entry that is already trimmed and followed by a comma is taken as it is. */
  lemma ForwardedForChain(first: string, rest: string, peer: string)
    requires first != "" && ',' !in first && !IsSpace(first[0]) && !IsSpace(first[|first| - 1])
    ensures GetRemoteIP(Request(first + "," + rest, peer)) == first
  {
    var xff := first + "," + rest;
    assert first == xff[..|first|] && xff[|first|] == ',';
    ForwardedForFirstEntry(Request(xff, peer), first);
    assert TrimmedAt(first, first, 0);
    TrimIsUnique(first, first, TrimSpace(first));
  }

  /** The example of a proxy chain: "1.2.3.4, 5.6.7.8" yields "1.2.3.4". */
  lemma ForwardedForChainExample(req: Request)
    requires req.forwardedFor == "1.2.3.4, 5.6.7.8"
    ensures GetRemoteIP(req) == "1.2.3.4"
  {
    var first, rest := "1.2.3.4", " 5.6.7.8";
    assert req.forwardedFor == first + "," + rest;
    ForwardedForChain(first, rest, req.remoteAddr);
  }

  /** Without `X-Forwarded-For`, the address is the host of the peer address, or "" when it does not split. */
  lemma PeerAddressFallback(req: Request)
    requires req.forwardedFor == ""
    ensures SplitHostPort(req.remoteAddr).HostPort? ==> GetRemoteIP(req) == SplitHostPort(req.remoteAddr).host
    ensures SplitHostPort(req.remoteAddr).AddrErr? ==> GetRemoteIP(req) == ""
  {
  }

  /** A peer address `host:port` with a plain host yields that host; a colon-free peer address yields "". */
  lemma PeerAddressShapes(host: string, port: string, bare: string)
    requires ':' !in host && NoBrackets(host) && ':' !in port && NoBrackets(port)
    requires ':' !in bare
    ensures GetRemoteIP(Request("", host + ":" + port)) == host
    ensures GetRemoteIP(Request("", bare)) == ""
  {
    SplitPlainHostPort(host, port);
  }

  // ---------------------------------------------------------------------
  // The order of the checks

  /** A whitelisted address is admitted without asking the database, whatever it would say. */
  lemma WhitelistHitSkipsLookup(h: Handler, ip: string, parses: string -> bool, lookup: string -> LookupResult)
    requires ip in h.whitelistedIPs
    ensures Decide(h, ip, parses, lookup) == Decision(PassToNext, false)
  {
  }

  /** When the database is not consulted, nothing it could answer changes the decision. */
  lemma UnconsultedLookupIsIrrelevant(
    h: Handler, ip: string, parses: string -> bool, lookup: string -> LookupResult, other: string -> LookupResult)
    requires !Decide(h, ip, parses, lookup).consultedLookup
    ensures Decide(h, ip, parses, other) == Decide(h, ip, parses, lookup)
  {
  }

  /** An address that does not parse is admitted, and the database is not asked (fail-open). */
  lemma ParseFailureFailsOpen(h: Handler, ip: string, parses: string -> bool, lookup: string -> LookupResult)
    requires !parses(ip)
    ensures Decide(h, ip, parses, lookup) == Decision(PassToNext, false)
  {
  }

  /** A lookup error admits the request (fail-open). */
  lemma LookupErrorFailsOpen(h: Handler, ip: string, parses: string -> bool, lookup: string -> LookupResult)
    requires ip !in h.whitelistedIPs && parses(ip) && lookup(ip) == LookupError
    ensures Decide(h, ip, parses, lookup) == Decision(PassToNext, true)
  {
  }

  /**
   A malformed peer address without `X-Forwarded-For` yields the address "",
   which the parser refuses, so the request is admitted unexamined.
   */
  lemma MalformedPeerAddressFailsOpen(h: Handler, req: Request, parses: string -> bool, lookup: string -> LookupResult)
    requires req.forwardedFor == "" && SplitHostPort(req.remoteAddr).AddrErr?
    requires !parses("")
    ensures ServeHTTP(h, req, parses, lookup) == Decision(PassToNext, false)
  {
  }

  /** Every record outside the US is refused with the fixed body, whatever the blocked states are. */
  lemma NonUSAlwaysRefused(h: Handler, ip: string, parses: string -> bool, lookup: string -> LookupResult)
    requires ip !in h.whitelistedIPs && parses(ip)
    requires lookup(ip).Found? && lookup(ip).record.country != "US"
    ensures Decide(h, ip, parses, lookup) == Decision(Forbidden(NonUSBody), true)
    ensures forall states :: Decide(h.(blockedStates := states), ip, parses, lookup) == Decide(h, ip, parses, lookup)
  {
  }

  /** A US record with a subdivision is refused exactly when its first subdivision is blocked. */
  lemma USStateDecision(h: Handler, ip: string, parses: string -> bool, lookup: string -> LookupResult)
    requires ip !in h.whitelistedIPs && parses(ip)
    requires lookup(ip).Found? && lookup(ip).record.country == "US"
    requires |lookup(ip).record.subdivisions| > 0
    ensures var code := lookup(ip).record.subdivisions[0];
      Decide(h, ip, parses, lookup).response
        == if code in h.blockedStates then Forbidden(StateDeniedPrefix + code) else PassToNext
  {
  }

  /** Only the first subdivision counts: records agreeing on country and first subdivision are decided alike. */
  lemma OnlyFirstSubdivisionConsulted(
    h: Handler, ip: string, parses: string -> bool, lookup: string -> LookupResult, other: string -> LookupResult)
    requires lookup(ip).Found? && other(ip).Found?
    requires lookup(ip).record.country == other(ip).record.country
    requires |lookup(ip).record.subdivisions| > 0 && |other(ip).record.subdivisions| > 0
    requires lookup(ip).record.subdivisions[0] == other(ip).record.subdivisions[0]
    ensures Decide(h, ip, parses, lookup) == Decide(h, ip, parses, other)
  {
  }

  /** A US record without subdivision data is refused with an empty body (fail-closed). */
  lemma USWithoutStateFailsClosed(h: Handler, ip: string, parses: string -> bool, lookup: string -> LookupResult)
    requires ip !in h.whitelistedIPs && parses(ip)
    requires lookup(ip) == Found(GeoRecord("US", []))
    ensures Decide(h, ip, parses, lookup) == Decision(Forbidden(""), true)
  {
  }

  /**
   The policy as one condition: a request is refused exactly when its
   address is not whitelisted, parses, is found in the database, and is
   outside the US, or in the US without a subdivision, or in a blocked state.
   */
  ghost predicate PolicyRefuses(h: Handler, ip: string, parses: string -> bool, lookup: string -> LookupResult) {
    && ip !in h.whitelistedIPs
    && parses(ip)
    && lookup(ip).Found?
    && (|| lookup(ip).record.country != "US"
        || |lookup(ip).record.subdivisions| == 0
        || lookup(ip).record.subdivisions[0] in h.blockedStates)
  }

  lemma DecideFollowsPolicy(h: Handler, ip: string, parses: string -> bool, lookup: string -> LookupResult)
    ensures Decide(h, ip, parses, lookup).response.Forbidden? <==> PolicyRefuses(h, ip, parses, lookup)
  {
  }

  // ---------------------------------------------------------------------
  // The whitelist cases of the repository's test

  /** A whitelisted peer `host:port` is admitted without a lookup. */
  lemma WhitelistedPeer(
    h: Handler, host: string, port: string, parses: string -> bool, lookup: string -> LookupResult)
    requires host in h.whitelistedIPs
    requires ':' !in host && NoBrackets(host) && ':' !in port && NoBrackets(port)
    ensures ServeHTTP(h, Request("", host + ":" + port), parses, lookup) == Decision(PassToNext, false)
  {
    SplitPlainHostPort(host, port);
  }

  /**
   With "CA" blocked and "1.2.3.4" and "140.228.62.31" whitelisted, peers
   at those addresses are admitted without a lookup, even the one the
   database places in the UK.
   */
  lemma WhitelistedTestClients(
    config: Config, opens: string -> bool, req: Request, parses: string -> bool, lookup: string -> LookupResult)
    requires config == Config(["CA"], ["1.2.3.4", "140.228.62.31"], "data/GeoLite2-City.mmdb")
    requires opens(config.dbPath)
    requires req == Request("", "1.2.3.4:1234") || req == Request("", "140.228.62.31:1234")
    ensures New(config, "state-block-test", opens).Built?
    ensures ServeHTTP(New(config, "state-block-test", opens).handler, req, parses, lookup) == Decision(PassToNext, false)
  {
    var h := New(config, "state-block-test", opens).handler;
    var host, port := if req.remoteAddr == "1.2.3.4:1234" then "1.2.3.4" else "140.228.62.31", "1234";
    assert req.remoteAddr == host + ":" + port;
    assert host in config.whitelistedIPs;
    WhitelistedPeer(h, host, port, parses, lookup);
  }

  /** The state cases of that test: a California peer is refused naming "CA", a New York peer admitted. */
  lemma StateTestClients(
    h: Handler, ip: string, parses: string -> bool, lookup: string -> LookupResult)
    requires h.blockedStates == {"CA"} && ip !in h.whitelistedIPs && parses(ip)
    ensures Decide(h, ip, parses, _ => Found(GeoRecord("US", ["CA"]))).response == Forbidden("Access denied from state: CA")
    ensures Decide(h, ip, parses, _ => Found(GeoRecord("US", ["NY"]))).response == PassToNext
  {
    assert "NY" != "CA" by { assert "NY"[0] != "CA"[0]; }
  }
}
