/** The client-IP middleware: a trust set of excluded networks built once from
    configuration, and the per-request resolver that picks the client address
    from `X-Forwarded-For`, falls back to `Cf-Connecting-Ip`, and writes the
    result into `X-Real-Ip`. */
module RealIp {
  import opened Wrappers
  import opened Strings
  import opened Net
  import opened Http
  import opened Seqs

  const XRealIp: string := "X-Real-Ip"
  const XForwardedFor: string := "X-Forwarded-For"
  const CfConnectingIp: string := "Cf-Connecting-Ip"

  /** The plugin configuration: the CIDR texts of the excluded networks. */
  datatype Config = Config(excludedNets: seq<string>)

  /** The constructed middleware: the parsed excluded networks, in
      configuration order. */
  datatype RealIPOverWriter = RealIPOverWriter(excludedNets: seq<IPNet>)

  /** `k` is the first configured network text that does not parse. */
  predicate FirstInvalid(cidrs: seq<string>, k: int) {
    FirstFailure(ParseCIDR, cidrs, k)
  }

  /** The loop of `New`: parses the network texts in order, stopping at the
      first that does not parse. */
  function ParseNets(cidrs: seq<string>): (r: Result<seq<IPNet>, ParseError>)
    ensures r.Success? <==> forall i :: 0 <= i < |cidrs| ==> ParseCIDR(cidrs[i]).Success?
    ensures r.Success? ==> |r.value| == |cidrs|
    ensures r.Success? ==> forall i :: 0 <= i < |cidrs| ==> ParseCIDR(cidrs[i]) == Success(r.value[i])
    ensures r.Failure? ==> exists k :: FirstInvalid(cidrs, k) && r.error == ParseError("CIDR address", cidrs[k])
  {
    MapWithResult(ParseCIDR, cidrs)
  }

  /** `New`: builds the middleware, or reports the first configured network
      text that is not valid CIDR notation. On success there is one network
      per text, in order. */
  function New(config: Config): (r: Result<RealIPOverWriter, ParseError>)
    ensures r.Success? <==> forall i :: 0 <= i < |config.excludedNets| ==> ParseCIDR(config.excludedNets[i]).Success?
    ensures r.Success? ==> |r.value.excludedNets| == |config.excludedNets|
    ensures r.Success? ==> forall i :: 0 <= i < |config.excludedNets| ==>
              ParseCIDR(config.excludedNets[i]) == Success(r.value.excludedNets[i])
    ensures r.Failure? ==> exists k :: FirstInvalid(config.excludedNets, k)
                                      && r.error == ParseError("CIDR address", config.excludedNets[k])
  {
    match ParseNets(config.excludedNets)
    case Failure(e) => Failure(e)
    case Success(nets) => Success(RealIPOverWriter(nets))
  }

  /** Whether some network of `nets` contains `ip`, trying them in order. */
  function AnyContains(nets: seq<IPNet>, ip: Addr): (b: bool)
    ensures b <==> exists i :: 0 <= i < |nets| && Contains(nets[i], ip)
  {
    if nets == [] then false
    else if Contains(nets[0], ip) then true
    else
      var b := AnyContains(nets[1..], ip);
      assert forall i :: 1 <= i < |nets| ==> nets[i] == nets[1..][i - 1];
      b
  }

  /** `excludedIP`: a token that does not parse as an address is excluded
      (fail-safe); an address is excluded when a configured network contains
      it. */
  function ExcludedIP(r: RealIPOverWriter, s: string): (excluded: bool)
    ensures ParseIP(s).None? ==> excluded
    ensures ParseIP(s).Some? ==>
              (excluded <==> exists i :: 0 <= i < |r.excludedNets| && Contains(r.excludedNets[i], ParseIP(s).value))
  {
    match ParseIP(s)
    case None => true
    case Some(ip) => AnyContains(r.excludedNets, ip)
  }

  /** With no excluded networks, exactly the tokens that are not addresses
      are excluded. */
  lemma NoNetsExcludeOnlyMalformed(s: string)
    ensures ExcludedIP(RealIPOverWriter([]), s) <==> ParseIP(s).None?
  {
  }

  /** The verdict of `ExcludedIP` on each trimmed token of the chain. */
  function Verdicts(r: RealIPOverWriter, forwardedIPs: seq<string>): (v: seq<bool>)
    ensures |v| == |forwardedIPs|
    ensures forall k :: 0 <= k < |forwardedIPs| ==> v[k] == ExcludedIP(r, TrimSpace(forwardedIPs[k]))
  {
    seq(|forwardedIPs|, k requires 0 <= k < |forwardedIPs| => ExcludedIP(r, TrimSpace(forwardedIPs[k])))
  }

  /** Every token is excluded. */
  predicate AllExcluded(verdicts: seq<bool>) {
    forall k :: 0 <= k < |verdicts| ==> verdicts[k]
  }

  /** Token `k` is the rightmost token below index `n` that is not excluded. */
  predicate RightmostTrustedBelow(verdicts: seq<bool>, n: int, k: int) {
    && 0 <= k < n <= |verdicts|
    && !verdicts[k]
    && forall j :: k < j < n ==> verdicts[j]
  }

  /** Token `k` is the rightmost token that is not excluded. */
  predicate RightmostTrusted(verdicts: seq<bool>, k: int) {
    RightmostTrustedBelow(verdicts, |verdicts|, k)
  }

  /** At most one token is the rightmost trusted one. */
  lemma RightmostTrustedUnique(verdicts: seq<bool>, k: int, k': int)
    requires RightmostTrusted(verdicts, k) && RightmostTrusted(verdicts, k')
    ensures k == k'
  {
  }

  /** A chain with a token that is not excluded has a rightmost such token. */
  lemma {:induction false} RightmostTrustedExists(verdicts: seq<bool>)
    requires !AllExcluded(verdicts)
    ensures exists k :: RightmostTrusted(verdicts, k)
    decreases |verdicts|
  {
    var n := |verdicts| - 1;
    if !verdicts[n] {
      assert RightmostTrusted(verdicts, n);
    } else {
      var prefix := verdicts[..n];
      var j :| 0 <= j < |verdicts| && !verdicts[j];
      assert !prefix[j];
      RightmostTrustedExists(prefix);
      var k :| RightmostTrusted(prefix, k);
      assert RightmostTrusted(verdicts, k);
    }
  }

  /** An excluded token at `n - 1` does not change which token is the
      rightmost trusted one. */
  lemma RightmostTrustedBelowStep(verdicts: seq<bool>, n: int, k: int)
    requires 1 <= n <= |verdicts| && verdicts[n - 1]
    requires RightmostTrustedBelow(verdicts, n - 1, k)
    ensures RightmostTrustedBelow(verdicts, n, k)
  {
  }

  /** The loop of `ServeHTTP` from token `n - 1` down to the first: the
      first trimmed token met that is not excluded, or `""` when there is
      none. A returned token is always a well-formed address. */
  function ScanFrom(r: RealIPOverWriter, forwardedIPs: seq<string>, n: nat): (realIP: string)
    requires n <= |forwardedIPs|
    ensures realIP == "" <==> forall k :: 0 <= k < n ==> ExcludedIP(r, TrimSpace(forwardedIPs[k]))
    ensures realIP != "" ==> exists k :: RightmostTrustedBelow(Verdicts(r, forwardedIPs), n, k)
                                         && realIP == TrimSpace(forwardedIPs[k])
    ensures realIP != "" ==> ParseIP(realIP).Some?
    decreases n
  {
    if n == 0 then ""
    else
      var trimmedIP := TrimSpace(forwardedIPs[n - 1]);
      if !ExcludedIP(r, trimmedIP) then
        ParsedIPNonEmpty(trimmedIP);
        assert RightmostTrustedBelow(Verdicts(r, forwardedIPs), n, n - 1);
        trimmedIP
      else
        var realIP := ScanFrom(r, forwardedIPs, n - 1);
        if realIP != "" then
          var verdicts := Verdicts(r, forwardedIPs);
          var k :| RightmostTrustedBelow(verdicts, n - 1, k) && realIP == TrimSpace(forwardedIPs[k]);
          assert verdicts[n - 1];
          RightmostTrustedBelowStep(verdicts, n, k);
          realIP
        else
          realIP
  }

  /** The scan of `ServeHTTP` over the whole chain, from its last token to
      its first. */
  function ScanRealIP(r: RealIPOverWriter, forwardedIPs: seq<string>): (realIP: string)
    ensures realIP == "" <==> AllExcluded(Verdicts(r, forwardedIPs))
    ensures realIP != "" ==> exists k :: RightmostTrusted(Verdicts(r, forwardedIPs), k)
                                         && realIP == TrimSpace(forwardedIPs[k])
    ensures realIP != "" ==> ParseIP(realIP).Some?
  {
    ScanFrom(r, forwardedIPs, |forwardedIPs|)
  }

  /** The forwarded chain of a request: `X-Forwarded-For` split at commas; an
      absent header gives the single token `""`. */
  function ForwardedIPs(req: Header): seq<string> {
    Split(Get(req, XForwardedFor), ',')
  }

  /** The header rewrite that ends `ServeHTTP`: an empty scan result is
      replaced by the raw `Cf-Connecting-Ip` value, which also replaces
      `X-Forwarded-For`; the result always replaces `X-Real-Ip`. */
  function WriteRealIP(req: Header, realIP: string): (out: Header)
    ensures realIP != "" ==> Get(out, XRealIp) == realIP && Get(out, XForwardedFor) == Get(req, XForwardedFor)
    ensures realIP != "" ==> (XForwardedFor in out <==> XForwardedFor in req)
    ensures realIP == "" ==> Get(out, XRealIp) == Get(req, CfConnectingIp)
                             && Get(out, XForwardedFor) == Get(req, CfConnectingIp)
                             && XForwardedFor in out
    ensures XRealIp in out
    ensures forall key :: key != XRealIp && key != XForwardedFor ==>
              (key in out <==> key in req) && (key in req ==> out[key] == req[key])
  {
    if realIP == "" then
      var fallback := Get(req, CfConnectingIp);
      Set(Set(req, XForwardedFor, fallback), XRealIp, fallback)
    else
      Set(req, XRealIp, realIP)
  }

  /** `ServeHTTP` up to the hand-off to the next handler: resolves the client
      address and returns the rewritten headers. When some token of the chain
      is trusted, `X-Real-Ip` is the rightmost trusted token, trimmed, and
      `X-Forwarded-For` is kept; otherwise both become the raw
      `Cf-Connecting-Ip` value. No other header changes. */
  function ServeHTTP(r: RealIPOverWriter, req: Header): (out: Header)
    ensures forall k :: RightmostTrusted(Verdicts(r, ForwardedIPs(req)), k) ==>
              && Get(out, XRealIp) == TrimSpace(ForwardedIPs(req)[k])
              && ParseIP(Get(out, XRealIp)).Some?
              && Get(out, XForwardedFor) == Get(req, XForwardedFor)
    ensures AllExcluded(Verdicts(r, ForwardedIPs(req))) ==>
              && Get(out, XRealIp) == Get(req, CfConnectingIp)
              && Get(out, XForwardedFor) == Get(req, CfConnectingIp)
              && XForwardedFor in out
    ensures XRealIp in out
    ensures forall key :: key != XRealIp && key != XForwardedFor ==>
              (key in out <==> key in req) && (key in req ==> out[key] == req[key])
  {
    WriteRealIP(req, ScanRealIP(r, ForwardedIPs(req)))
  }

  /** The rewrite gives the same headers whether or not the incoming request
      carries `X-Real-Ip`. */
  lemma WriteRealIPDropsRealIp(req: Header, realIP: string)
    ensures WriteRealIP(req, realIP) == WriteRealIP(req - {XRealIp}, realIP)
  {
    var stripped := req - {XRealIp};
    assert Get(stripped, CfConnectingIp) == Get(req, CfConnectingIp);
    if realIP == "" {
      var fallback := Get(req, CfConnectingIp);
      assert req[XForwardedFor := fallback][XRealIp := fallback]
          == stripped[XForwardedFor := fallback][XRealIp := fallback];
    } else {
      assert req[XRealIp := realIP] == stripped[XRealIp := realIP];
    }
  }

  /** The rewrite reads nothing of the incoming `X-Real-Ip`. */
  lemma WriteRealIPIgnoresRealIp(req1: Header, req2: Header, realIP: string)
    requires req1 - {XRealIp} == req2 - {XRealIp}
    ensures WriteRealIP(req1, realIP) == WriteRealIP(req2, realIP)
  {
    WriteRealIPDropsRealIp(req1, realIP);
    WriteRealIPDropsRealIp(req2, realIP);
  }

  /** `ServeHTTP` reads nothing of the incoming `X-Real-Ip`: two requests that
      differ only in that header give the same result. */
  lemma ServeHTTPIgnoresRealIp(r: RealIPOverWriter, req1: Header, req2: Header)
    requires req1 - {XRealIp} == req2 - {XRealIp}
    ensures ServeHTTP(r, req1) == ServeHTTP(r, req2)
  {
    assert Get(req1, XForwardedFor) == Get(req2, XForwardedFor) by {
      assert XForwardedFor in req1 <==> XForwardedFor in req1 - {XRealIp};
      assert XForwardedFor in req2 <==> XForwardedFor in req2 - {XRealIp};
      if XForwardedFor in req1 {
        assert req1[XForwardedFor] == (req1 - {XRealIp})[XForwardedFor];
        assert req2[XForwardedFor] == (req2 - {XRealIp})[XForwardedFor];
      }
    }
    WriteRealIPIgnoresRealIp(req1, req2, ScanRealIP(r, ForwardedIPs(req1)));
  }

  /** Whatever `X-Real-Ip` value the client sent, the result is the one the
      request would have had without it. */
  lemma ClientRealIpIgnored(r: RealIPOverWriter, req: Header, spoofed: string)
    ensures ServeHTTP(r, req[XRealIp := spoofed]) == ServeHTTP(r, req - {XRealIp})
  {
    assert req[XRealIp := spoofed] - {XRealIp} == (req - {XRealIp}) - {XRealIp};
    ServeHTTPIgnoresRealIp(r, req[XRealIp := spoofed], req - {XRealIp});
  }

  /** Writing the same resolved address twice is writing it once. */
  lemma WriteRealIPTwice(req: Header, realIP: string)
    requires realIP != ""
    ensures WriteRealIP(WriteRealIP(req, realIP), realIP) == WriteRealIP(req, realIP)
  {
    var out := WriteRealIP(req, realIP);
    assert out[XRealIp := realIP] == out;
  }

  /** Falling back twice is falling back once: the second fallback reads the
      `Cf-Connecting-Ip` value the first one left in place. */
  lemma WriteFallbackTwice(req: Header)
    ensures WriteRealIP(WriteRealIP(req, ""), "") == WriteRealIP(req, "")
  {
    var out := WriteRealIP(req, "");
    var fallback := Get(req, CfConnectingIp);
    assert Get(out, CfConnectingIp) == fallback;
    assert out[XForwardedFor := fallback][XRealIp := fallback] == out;
  }

  /** Running the middleware again on its own output changes nothing when the
      first pass found a trusted token, or when it fell back and the
      `Cf-Connecting-Ip` value read as a chain is itself all excluded. */
  lemma ServeHTTPStable(r: RealIPOverWriter, req: Header)
    requires || !AllExcluded(Verdicts(r, ForwardedIPs(req)))
             || AllExcluded(Verdicts(r, Split(Get(req, CfConnectingIp), ',')))
    ensures ServeHTTP(r, ServeHTTP(r, req)) == ServeHTTP(r, req)
  {
    var realIP := ScanRealIP(r, ForwardedIPs(req));
    var out := WriteRealIP(req, realIP);
    if realIP != "" {
      assert ForwardedIPs(out) == ForwardedIPs(req);
      WriteRealIPTwice(req, realIP);
    } else {
      assert ForwardedIPs(out) == Split(Get(req, CfConnectingIp), ',');
      WriteFallbackTwice(req);
    }
  }
}
