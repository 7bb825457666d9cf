/** The behaviour the repository's test exercises, and further concrete
    scenarios, as facts about the model. */
module RealIpExamples {
  import opened Wrappers
  import opened Strings
  import opened Net
  import opened Http
  import opened RealIp

  const Loopback0: Addr := 0x7F00_0000   // 127.0.0.0
  const Loopback1: Addr := 0x7F00_0001   // 127.0.0.1
  const Loopback2: Addr := 0x7F00_0002   // 127.0.0.2
  const Private1: Addr := 0x0A00_0001    // 10.0.0.1

  /** A well-formed address text contains no comma. */
  lemma AddressCommaFree(s: string)
    requires ParseIP(s).Some?
    ensures Free(s, ',') && Trimmed(s)
  {
    ParsedIPShape(s);
    forall k | 0 <= k < |s|
      ensures s[k] != ','
    {
      assert Decimal.IsDigit(s[k]) || s[k] == '.';
    }
  }

  /** A well-formed address token is its own single chain token, trims to
      itself and parses to its address. */
  lemma AddressToken(s: string, a: Addr)
    requires FormatIP(a) == s
    ensures ParseIP(s) == Some(a)
    ensures Split(s, ',') == [s]
    ensures TrimSpace(s) == s
  {
    ParseFormatIP(a);
    AddressCommaFree(s);
    SplitJoin([s], ',');
    TrimSpaceOfTrimmed(s);
  }

  lemma Numerals()
    ensures Decimal.Format(0) == "0" && Decimal.Format(1) == "1" && Decimal.Format(2) == "2"
    ensures Decimal.Format(10) == "10" && Decimal.Format(127) == "127"
  {
    assert Decimal.DigitChar(0) == '0' && Decimal.DigitChar(1) == '1' && Decimal.DigitChar(2) == '2';
    assert Decimal.DigitChar(7) == '7';
    assert Decimal.Format(12) == "12";
  }

  lemma TextLoopback0()
    ensures FormatIP(Loopback0) == "127.0.0.0"
  {
    Numerals();
    assert Octets(Loopback0) == [127, 0, 0, 0];
    JoinFour("127", "0", "0", "0", '.');
  }

  lemma TextLoopback1()
    ensures FormatIP(Loopback1) == "127.0.0.1"
  {
    Numerals();
    assert Octets(Loopback1) == [127, 0, 0, 1];
    JoinFour("127", "0", "0", "1", '.');
  }

  lemma TextLoopback2()
    ensures FormatIP(Loopback2) == "127.0.0.2"
  {
    Numerals();
    assert Octets(Loopback2) == [127, 0, 0, 2];
    JoinFour("127", "0", "0", "2", '.');
  }

  lemma TextPrivate1()
    ensures FormatIP(Private1) == "10.0.0.1"
  {
    Numerals();
    assert Octets(Private1) == [10, 0, 0, 1];
    JoinFour("10", "0", "0", "1", '.');
  }

  /** The network `127.0.0.0/24`. */
  const LoopbackNet: IPNet := IPNet(0x7F00_0000, 24)

  lemma LoopbackNetMembers()
    ensures Contains(LoopbackNet, Loopback2)
    ensures !Contains(LoopbackNet, Private1)
  {
    HostCount24();
    ContainsRange(LoopbackNet, Loopback2);
    ContainsRange(LoopbackNet, Private1);
  }

  lemma HostCount24()
    ensures HostCount(24) == 256
  {
    assert Pow2(2) == 4;
    assert Pow2(4) == 16;
    assert Pow2(6) == 64;
  }

  lemma Prefix24()
    ensures Decimal.IsDigits("24") && Decimal.Value("24") == 24
  {
    assert "24"[..1] == "2";
    assert "2"[..0] == "";
  }

  /** Any address followed by `/24` parses to its `/24` network. */
  lemma ParseCidr24(a: Addr)
    ensures ParseCIDR(FormatIP(a) + "/24") == Success(IPNet(Mask(a, 24), 24))
  {
    Prefix24();
    ParseCIDROfFormat(a, "24");
    assert FormatIP(a) + "/" + "24" == FormatIP(a) + "/24";
  }

  lemma MaskLoopback()
    ensures Mask(Loopback0, 24) == 0x7F00_0000 && Mask(Loopback1, 24) == 0x7F00_0000
  {
    HostCount24();
    MaskOfBlock(Loopback0, 24, 0x7F00_0000);
    MaskOfBlock(Loopback1, 24, 0x7F00_0000);
  }

  /** A configuration of one network text that parses. */
  lemma NewSingle(text: string, n: IPNet)
    requires ParseCIDR(text) == Success(n)
    ensures New(Config([text])) == Success(RealIPOverWriter([n]))
  {
    var r := New(Config([text]));
    assert [text][0] == text;
    assert r.Success?;
    assert r.value.excludedNets == [n];
  }

  /** A configuration whose second network text does not parse. */
  lemma NewSecondInvalid(text1: string, text2: string, n: IPNet)
    requires ParseCIDR(text1) == Success(n) && ParseCIDR(text2).Failure?
    ensures New(Config([text1, text2])) == Failure(ParseError("CIDR address", text2))
  {
    var r := New(Config([text1, text2]));
    assert [text1, text2][1] == text2;
    assert !FirstInvalid([text1, text2], 0);
  }

  /** How the literal texts of the scenarios below are built and which
      characters they are free of. */
  lemma StringLiterals()
    ensures "127.0.0.1" + "/24" == "127.0.0.1/24"
    ensures "127.0.0.0" + "/24" == "127.0.0.0/24"
    ensures "::1" + "/" + "128" == "::1/128"
    ensures Free("::1", '/') && Free("::1", '.') && Free("128", '/')
    ensures Free("not-an-ip", ',') && Free("not-an-ip", '.') && Trimmed("not-an-ip")
    ensures "10.0.0.1" + ", " + "127.0.0.2" == "10.0.0.1, 127.0.0.2"
    ensures "10.0.0.1" + ", " + "not-an-ip" == "10.0.0.1, not-an-ip"
    ensures " " + "10.0.0.1" == " 10.0.0.1"
  {
  }

  /** A configuration of one network text that does not parse. */
  lemma NewSingleInvalid(text: string)
    requires ParseCIDR(text).Failure?
    ensures New(Config([text])) == Failure(ParseError("CIDR address", text))
  {
    assert [text][0] == text;
  }

  /** A text `a/b` whose address part `a` has no dot is not CIDR notation. */
  lemma DotlessAddressNotCidr(a: string, b: string)
    requires Free(a, '/') && Free(b, '/') && Free(a, '.')
    ensures ParseCIDR(a + "/" + b).Failure?
  {
    JoinTwo(a, b, '/');
    assert a + ['/'] + b == a + "/" + b;
    SplitJoin([a, b], '/');
    NoDotNotAddress(a);
  }

  /** Only IPv4 is modelled: the IPv6 loopback network `::1/128`, which Go
      accepts, is refused as a configuration error. */
  lemma Ipv6ConfigurationRefused()
    ensures New(Config(["::1/128"])) == Failure(ParseError("CIDR address", "::1/128"))
  {
    StringLiterals();
    DotlessAddressNotCidr("::1", "128");
    NewSingleInvalid("::1/128");
  }

  lemma ParseLoopback1Cidr()
    ensures ParseCIDR("127.0.0.1/24") == Success(LoopbackNet)
  {
    MaskLoopback();
    TextLoopback1();
    ParseCidr24(Loopback1);
    StringLiterals();
  }

  lemma ParseLoopback0Cidr()
    ensures ParseCIDR("127.0.0.0/24") == Success(LoopbackNet)
  {
    MaskLoopback();
    TextLoopback0();
    ParseCidr24(Loopback0);
    StringLiterals();
  }

  /** The repository's test configures `127.0.0.1/24`; parsing masks the host
      bits, so the trust set is the network `127.0.0.0/24`, the same one
      `127.0.0.0/24` gives. */
  lemma TestConfiguration()
    ensures New(Config(["127.0.0.1/24"])) == Success(RealIPOverWriter([LoopbackNet]))
    ensures New(Config(["127.0.0.0/24"])) == Success(RealIPOverWriter([LoopbackNet]))
  {
    ParseLoopback1Cidr();
    ParseLoopback0Cidr();
    NewSingle("127.0.0.1/24", LoopbackNet);
    NewSingle("127.0.0.0/24", LoopbackNet);
  }

  /** A configuration holding a text that is not CIDR notation is refused,
      naming that text. */
  lemma BadConfiguration()
    ensures New(Config(["127.0.0.1/24", "localhost"]))
            == Failure(ParseError("CIDR address", "localhost"))
  {
    ParseLoopback1Cidr();
    LocalhostNotCidr();
    NewSecondInvalid("127.0.0.1/24", "localhost", LoopbackNet);
  }

  lemma LocalhostNotCidr()
    ensures ParseCIDR("localhost").Failure?
  {
    NoSlashNotCidr("localhost");
  }

  lemma NoSlashNotCidr(s: string)
    requires Free(s, '/')
    ensures ParseCIDR(s).Failure?
  {
    SplitFree(s, '/');
  }

  /** A text without the separator splits into itself alone. */
  lemma SplitFree(s: string, sep: char)
    requires Free(s, sep)
    ensures Split(s, sep) == [s]
  {
    SplitJoin([s], sep);
  }

  const Trust: RealIPOverWriter := RealIPOverWriter([LoopbackNet])

  /** A token without a dot is not an address. */
  lemma NoDotNotAddress(s: string)
    requires Free(s, '.')
    ensures ParseIP(s).None?
  {
    SplitFree(s, '.');
  }

  /** A blank followed by a trimmed text trims to that text. */
  lemma TrimLeadingBlank(s: string)
    requires s != [] && Trimmed(s)
    ensures TrimSpace(" " + s) == s
  {
    var t := " " + s;
    assert SkipSpace(t, 1) == 1;
    assert SkipSpace(t, 0) == 1;
    assert SkipSpaceBack(t, 1, |t|) == |t|;
    assert t[1..|t|] == s;
  }

  /** A blank in front of a comma-free text keeps it comma-free. */
  lemma BlankFree(y: string)
    requires Free(y, ',')
    ensures Free(" " + y, ',')
  {
    forall k | 0 <= k < |" " + y|
      ensures (" " + y)[k] != ','
    {
      if k > 0 {
        assert (" " + y)[k] == y[k - 1];
      }
    }
  }

  /** The chain `x, y` (a comma and a blank between) splits into `x` and ` y`. */
  lemma SplitPair(x: string, y: string)
    requires Free(x, ',') && Free(y, ',')
    ensures Split(x + ", " + y, ',') == [x, " " + y]
  {
    BlankFree(y);
    JoinTwo(x, " " + y, ',');
    assert x + [','] + (" " + y) == x + ", " + y;
    SplitJoin([x, " " + y], ',');
  }

  /** An address in the trust set's network is excluded; one outside it is
      not. */
  lemma TrustVerdicts()
    ensures ExcludedIP(Trust, FormatIP(Loopback2))
    ensures !ExcludedIP(Trust, FormatIP(Private1))
  {
    ParseFormatIP(Loopback2);
    ParseFormatIP(Private1);
    LoopbackNetMembers();
    assert Trust.excludedNets[0] == LoopbackNet;
  }

  /** A chain of one address token that the trust set excludes resolves to the
      raw `Cf-Connecting-Ip` value. */
  lemma SingleExcludedToken(r: RealIPOverWriter, req: Header, a: Addr)
    requires Get(req, XForwardedFor) == FormatIP(a) && ExcludedIP(r, FormatIP(a))
    ensures Get(ServeHTTP(r, req), XRealIp) == Get(req, CfConnectingIp)
    ensures Get(ServeHTTP(r, req), XForwardedFor) == Get(req, CfConnectingIp)
  {
    AddressToken(FormatIP(a), a);
    assert Verdicts(r, ForwardedIPs(req)) == [true];
  }

  /** A chain of one address token that the trust set does not exclude
      resolves to that token. */
  lemma SingleTrustedToken(r: RealIPOverWriter, req: Header, a: Addr)
    requires Get(req, XForwardedFor) == FormatIP(a) && !ExcludedIP(r, FormatIP(a))
    ensures Get(ServeHTTP(r, req), XRealIp) == FormatIP(a)
  {
    AddressToken(FormatIP(a), a);
    assert RightmostTrusted(Verdicts(r, ForwardedIPs(req)), 0);
  }

  /** The repository's first test case: the chain `127.0.0.2` lies in the
      trust set and there is no fallback header, so `X-Real-Ip` is empty. */
  lemma TestDontForward()
    ensures Get(ServeHTTP(Trust, map[XForwardedFor := "127.0.0.2"]), XRealIp) == ""
  {
    TextLoopback2();
    TrustVerdicts();
    SingleExcludedToken(Trust, map[XForwardedFor := "127.0.0.2"], Loopback2);
  }

  /** The second test case: the chain `10.0.0.1` is outside the trust set and
      is taken. */
  lemma TestForward()
    ensures Get(ServeHTTP(Trust, map[XForwardedFor := "10.0.0.1"]), XRealIp) == "10.0.0.1"
  {
    TextPrivate1();
    TrustVerdicts();
    SingleTrustedToken(Trust, map[XForwardedFor := "10.0.0.1"], Private1);
  }

  /** Without `X-Forwarded-For` the chain is the single empty token, which
      is excluded, so the raw `Cf-Connecting-Ip` value is taken and also
      written into `X-Forwarded-For`. */
  lemma AbsentChain(r: RealIPOverWriter, req: Header)
    requires XForwardedFor !in req
    ensures Get(ServeHTTP(r, req), XRealIp) == Get(req, CfConnectingIp)
    ensures Get(ServeHTTP(r, req), XForwardedFor) == Get(req, CfConnectingIp)
  {
    assert ForwardedIPs(req) == [""];
    NoDotNotAddress("");
    assert Verdicts(r, ForwardedIPs(req)) == [true];
  }

  /** The third test case: only `Cf-Connecting-Ip: 10.0.0.1` is present. */
  lemma TestCfConnectingIp()
    ensures Get(ServeHTTP(Trust, map[CfConnectingIp := "10.0.0.1"]), XRealIp) == "10.0.0.1"
    ensures Get(ServeHTTP(Trust, map[CfConnectingIp := "10.0.0.1"]), XForwardedFor) == "10.0.0.1"
  {
    AbsentChain(Trust, map[CfConnectingIp := "10.0.0.1"]);
  }

  /** A chain `x, y` whose last token `y` is excluded and whose first token
      `x` is not resolves to `x`, and the chain is kept. */
  lemma PairScan(r: RealIPOverWriter, req: Header, x: string, y: string)
    requires Get(req, XForwardedFor) == x + ", " + y
    requires Free(x, ',') && Free(y, ',') && Trimmed(x) && Trimmed(y) && y != []
    requires !ExcludedIP(r, x) && ExcludedIP(r, y)
    ensures Get(ServeHTTP(r, req), XRealIp) == x
    ensures Get(ServeHTTP(r, req), XForwardedFor) == x + ", " + y
  {
    SplitPair(x, y);
    TrimLeadingBlank(y);
    TrimSpaceOfTrimmed(x);
    assert Verdicts(r, ForwardedIPs(req)) == [false, true];
    assert RightmostTrusted(Verdicts(r, ForwardedIPs(req)), 0);
  }

  lemma PrivateToken()
    ensures Free("10.0.0.1", ',') && Trimmed("10.0.0.1") && !ExcludedIP(Trust, "10.0.0.1")
  {
    TextPrivate1();
    TrustVerdicts();
    ParseFormatIP(Private1);
    AddressCommaFree("10.0.0.1");
  }

  lemma Loopback2Token()
    ensures Free("127.0.0.2", ',') && Trimmed("127.0.0.2") && ExcludedIP(Trust, "127.0.0.2")
  {
    TextLoopback2();
    TrustVerdicts();
    ParseFormatIP(Loopback2);
    AddressCommaFree("127.0.0.2");
  }

  /** Whatever the trust set, a token without a dot counts as excluded. */
  lemma NoDotExcluded(r: RealIPOverWriter, s: string)
    requires Free(s, '.')
    ensures ExcludedIP(r, s)
  {
    NoDotNotAddress(s);
  }

  lemma MalformedToken()
    ensures Free("not-an-ip", ',') && Trimmed("not-an-ip") && ExcludedIP(Trust, "not-an-ip")
  {
    StringLiterals();
    NoDotExcluded(Trust, "not-an-ip");
  }

  /** Backward scan: with `127.0.0.0/24` excluded (the trust set
      `TestConfiguration` builds from that text), the chain
      `10.0.0.1, 127.0.0.2` skips its excluded last entry and resolves to
      `10.0.0.1`. */
  lemma BackwardScan(req: Header)
    requires req == map[XForwardedFor := "10.0.0.1, 127.0.0.2"]
    ensures Get(ServeHTTP(Trust, req), XRealIp) == "10.0.0.1"
  {
    PrivateToken();
    Loopback2Token();
    StringLiterals();
    PairScan(Trust, req, "10.0.0.1", "127.0.0.2");
  }

  /** A token that is not an address is skipped as excluded: the chain
      `10.0.0.1, not-an-ip` resolves to `10.0.0.1`. */
  lemma MalformedTokenSkipped(req: Header)
    requires req == map[XForwardedFor := "10.0.0.1, not-an-ip"]
    ensures Get(ServeHTTP(Trust, req), XRealIp) == "10.0.0.1"
  {
    PrivateToken();
    MalformedToken();
    StringLiterals();
    PairScan(Trust, req, "10.0.0.1", "not-an-ip");
  }

  /** All excluded, with fallback: the chain `127.0.0.2` is excluded, so
      `Cf-Connecting-Ip: 10.0.0.1` is taken and replaces the chain. */
  lemma ExcludedChainFallsBack(req: Header)
    requires req == map[XForwardedFor := "127.0.0.2", CfConnectingIp := "10.0.0.1"]
    ensures Get(ServeHTTP(Trust, req), XRealIp) == "10.0.0.1"
    ensures Get(ServeHTTP(Trust, req), XForwardedFor) == "10.0.0.1"
  {
    TextLoopback2();
    TrustVerdicts();
    SingleExcludedToken(Trust, req, Loopback2);
  }

  /** An attacker-chosen `X-Real-Ip` does not survive: the header ends up
      holding the resolved address. */
  lemma SpoofedRealIpReplaced()
    ensures Get(ServeHTTP(Trust, map[XForwardedFor := "10.0.0.1", XRealIp := "6.6.6.6"]), XRealIp) == "10.0.0.1"
  {
    TextPrivate1();
    TrustVerdicts();
    SingleTrustedToken(Trust, map[XForwardedFor := "10.0.0.1", XRealIp := "6.6.6.6"], Private1);
  }

  /** With no excluded networks, an address chain passes through: its
      last token is taken. */
  lemma NoExclusionsPassThrough()
    ensures New(Config([])) == Success(RealIPOverWriter([]))
    ensures Get(ServeHTTP(RealIPOverWriter([]), map[XForwardedFor := "10.0.0.1"]), XRealIp) == "10.0.0.1"
  {
    TextPrivate1();
    ParseFormatIP(Private1);
    SingleTrustedToken(RealIPOverWriter([]), map[XForwardedFor := "10.0.0.1"], Private1);
  }

  /** A chain of one comma-free token whose trimmed text is not excluded
      resolves to that trimmed text. */
  lemma SingleTrustedText(r: RealIPOverWriter, req: Header, token: string, x: string)
    requires Get(req, XForwardedFor) == token && Free(token, ',')
    requires TrimSpace(token) == x && !ExcludedIP(r, x)
    ensures Get(ServeHTTP(r, req), XRealIp) == x
  {
    SplitFree(token, ',');
    assert RightmostTrusted(Verdicts(r, ForwardedIPs(req)), 0);
  }

  /** The fallback value is written as sent, surrounding blanks included,
      while chain tokens are trimmed: a blank-padded `Cf-Connecting-Ip`
      comes out padded, and running the middleware once more on that output
      trims it. */
  lemma PaddedFallback(r: RealIPOverWriter, req: Header, x: string)
    requires XForwardedFor !in req && Get(req, CfConnectingIp) == " " + x
    requires Free(x, ',') && Trimmed(x) && x != [] && !ExcludedIP(r, x)
    ensures Get(ServeHTTP(r, req), XRealIp) == " " + x
    ensures Get(ServeHTTP(r, ServeHTTP(r, req)), XRealIp) == x
  {
    AbsentChain(r, req);
    BlankFree(x);
    TrimLeadingBlank(x);
    SingleTrustedText(r, ServeHTTP(r, req), " " + x, x);
  }

  /** So the middleware is not stable under re-application in general:
      `Cf-Connecting-Ip: " 10.0.0.1"` resolves to itself, and a second pass
      resolves that to `10.0.0.1`. */
  lemma PaddedFallbackKeptRaw(req: Header)
    requires req == map[CfConnectingIp := " 10.0.0.1"]
    ensures Get(ServeHTTP(Trust, req), XRealIp) == " 10.0.0.1"
    ensures Get(ServeHTTP(Trust, ServeHTTP(Trust, req)), XRealIp) == "10.0.0.1"
  {
    PrivateToken();
    StringLiterals();
    PaddedFallback(Trust, req, "10.0.0.1");
  }
}
