/**
 `net.SplitHostPort` from Go's standard library, which the filter uses to
 take the port off the transport peer address, and its inverse
 `net.JoinHostPort`, which serves here as the reference the split is checked
 against. Both follow the Go library function by function: the last ':'
 separates the port, a host holding colons must be bracketed, and any stray
 bracket is an error.
 */
module GoNet {
  import opened GoStrings

  /** The reasons `net.SplitHostPort` gives for refusing an address. */
  datatype AddrError =
    | MissingPort             // "missing port in address"
    | TooManyColons           // "too many colons in address"
    | MissingRightBracket     // "missing ']' in address"
    | UnexpectedLeftBracket   // "unexpected '[' in address"
    | UnexpectedRightBracket  // "unexpected ']' in address"

  datatype SplitResult = HostPort(host: string, port: string) | AddrErr(why: AddrError)

  predicate NoBrackets(s: string) {
    '[' !in s && ']' !in s
  }

  /**
   `net.SplitHostPort`. An accepted address is either `host:port` with a
   colon-free host or `[host]:port`; the port never holds a colon and neither
   part holds a bracket.
   */
  function SplitHostPort(hostport: string): (r: SplitResult)
    ensures ':' !in hostport ==> r == AddrErr(MissingPort)
    ensures r.HostPort? ==>
      && ':' !in r.port && NoBrackets(r.port) && NoBrackets(r.host)
      && (|| (':' !in r.host && hostport == r.host + ":" + r.port)
          || hostport == "[" + r.host + "]:" + r.port)
  {
    // Everything after the final ':' is the port.
    var i := LastIndex(hostport, ':');
    if i < 0 then AddrErr(MissingPort)
    else if hostport[0] == '[' then SplitBracketed(hostport, i)
    else SplitPlain(hostport, i)
  }

  /** The `[host]:port` branch of `net.SplitHostPort`; `i` is the last colon. */
  function SplitBracketed(hostport: string, i: nat): (r: SplitResult)
    requires i < |hostport| && hostport[i] == ':' && ':' !in hostport[i + 1..]
    requires hostport[0] == '['
    ensures r.HostPort? ==>
      && ':' !in r.port && NoBrackets(r.port) && NoBrackets(r.host)
      && hostport == "[" + r.host + "]:" + r.port
  {
    // The first ']' must sit just before the last ':'.
    var end := Index(hostport, ']');
    if end < 0 then AddrErr(MissingRightBracket)
    else if end + 1 == |hostport| then AddrErr(MissingPort)
    else if end + 1 != i then
      if hostport[end + 1] == ':' then AddrErr(TooManyColons) else AddrErr(MissingPort)
    else if Index(hostport[1..], '[') >= 0 then AddrErr(UnexpectedLeftBracket)
    else if Index(hostport[end + 1..], ']') >= 0 then AddrErr(UnexpectedRightBracket)
    else
      var host, port := hostport[1..end], hostport[i + 1..];
      assert hostport[..end] == "[" + host;
      assert hostport[end..] == "]:" + port;
      assert hostport == hostport[..end] + hostport[end..];
      assert ']' !in host by { assert host == hostport[..end][1..]; }
      assert '[' !in port by { assert port == hostport[1..][i..]; }
      HostPort(host, port)
  }

  /** The `host:port` branch of `net.SplitHostPort`; `i` is the last colon. */
  function SplitPlain(hostport: string, i: nat): (r: SplitResult)
    requires i < |hostport| && hostport[i] == ':' && ':' !in hostport[i + 1..]
    ensures r.HostPort? ==>
      && ':' !in r.port && NoBrackets(r.port) && NoBrackets(r.host) && ':' !in r.host
      && hostport == r.host + ":" + r.port
  {
    var host := hostport[..i];
    if Index(host, ':') >= 0 then AddrErr(TooManyColons)
    else if Index(hostport, '[') >= 0 then AddrErr(UnexpectedLeftBracket)
    else if Index(hostport, ']') >= 0 then AddrErr(UnexpectedRightBracket)
    else
      var port := hostport[i + 1..];
      assert hostport == host + ":" + port;
      HostPort(host, port)
  }

  /** `net.JoinHostPort`: brackets the host when it holds a colon. */
  function JoinHostPort(host: string, port: string): string {
    if Index(host, ':') >= 0 then "[" + host + "]:" + port else host + ":" + port
  }

  /** A position holding `c` with no `c` after it is the last one. */
  lemma LastIndexAt(s: string, c: char, p: nat)
    requires p < |s| && s[p] == c && c !in s[p + 1..]
    ensures LastIndex(s, c) == p
  {
    var i := LastIndex(s, c);
    forall k | p < k < |s| ensures s[k] != c { assert s[k] == s[p + 1..][k - p - 1]; }
    forall k | i < k < |s| ensures s[k] != c { assert s[k] == s[i + 1..][k - i - 1]; }
  }

  /** A position holding `c` with no `c` before it is the first one. */
  lemma IndexAt(s: string, c: char, p: nat)
    requires p < |s| && s[p] == c && c !in s[..p]
    ensures Index(s, c) == p
  {
    var i := Index(s, c);
    forall k | 0 <= k < p ensures s[k] != c { assert s[k] == s[..p][k]; }
    if i >= 0 {
      forall k | 0 <= k < i ensures s[k] != c { assert s[k] == s[..i][k]; }
    }
  }

  /** `host:port` with a colon-free, bracket-free host splits back into its parts. */
  lemma SplitPlainHostPort(host: string, port: string)
    requires ':' !in host && NoBrackets(host)
    requires ':' !in port && NoBrackets(port)
    ensures SplitHostPort(host + ":" + port) == HostPort(host, port)
  {
    var s := host + ":" + port;
    assert s[|host| + 1..] == port;
    LastIndexAt(s, ':', |host|);
    assert s[..|host|] == host;
    assert host == [] || s[0] == host[0];
  }

  /** `[host]:port` with a bracket-free host and a colon-free, bracket-free port splits back into its parts. */
  lemma SplitBracketedHostPort(host: string, port: string)
    requires NoBrackets(host)
    requires ':' !in port && NoBrackets(port)
    ensures SplitHostPort("[" + host + "]:" + port) == HostPort(host, port)
  {
    var s := "[" + host + "]:" + port;
    var end := |host| + 1;
    assert s[end + 2..] == port;
    LastIndexAt(s, ':', end + 1);
    assert s[..end] == "[" + host;
    IndexAt(s, ']', end);
    assert s[1..] == host + "]:" + port;
    assert s[end + 1..] == ":" + port;
    assert s[1..end] == host;
  }

  /** Splitting undoes joining for every bracket-free host and colon-free port. */
  lemma SplitJoinHostPort(host: string, port: string)
    requires NoBrackets(host)
    requires ':' !in port && NoBrackets(port)
    ensures SplitHostPort(JoinHostPort(host, port)) == HostPort(host, port)
  {
    if ':' in host {
      SplitBracketedHostPort(host, port);
    } else {
      SplitPlainHostPort(host, port);
    }
  }

  /** An address that does not start with '[' and holds two colons is refused. */
  lemma TwoColonsUnbracketed(hostport: string, a: nat, b: nat)
    requires a < b < |hostport| && hostport[a] == ':' && hostport[b] == ':'
    requires hostport[0] != '['
    ensures SplitHostPort(hostport) == AddrErr(TooManyColons)
  {
    var i := LastIndex(hostport, ':');
    forall k | i < k < |hostport| ensures hostport[k] != ':' {
      assert hostport[k] == hostport[i + 1..][k - i - 1];
    }
    assert hostport[..i][a] == ':';
  }
}
