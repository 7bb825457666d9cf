/** The IPv4 part of Go's `net` package used by the middleware: `ParseIP`,
    `ParseCIDR` and `IPNet.Contains`. An address is its 32-bit value; a
    network is a base address together with a prefix length. */
module Net {
  import opened Wrappers
  import opened Strings
  import Decimal

  type Addr = a: nat | a < 0x1_0000_0000
  type Octet = n: nat | n < 256
  type PrefixLen = p: nat | p <= 32

  /** Go's `*net.IPNet`: the address `base` and the mask of `prefix` leading
      one bits (`net.CIDRMask(prefix, 32)`). */
  datatype IPNet = IPNet(base: Addr, prefix: PrefixLen)

  /** Go's `*net.ParseError`: the kind of text expected and the text itself. */
  datatype ParseError = ParseError(kind: string, text: string)

  function Pow2(k: nat): (r: nat)
    ensures r >= 1
  {
    if k == 0 then 1 else 2 * Pow2(k - 1)
  }

  /** The number of addresses a network with prefix length `p` spans. */
  function HostCount(p: PrefixLen): (n: nat)
    ensures n >= 1
  {
    Pow2(32 - p)
  }

  /** The quotient and remainder of a division are the only pair with
      `a == d * q + r` and `0 <= r < d`. */
  lemma DivModUnique(a: int, d: int, q: int, r: int)
    requires d > 0 && 0 <= r < d && a == d * q + r
    ensures a / d == q && a % d == r
  {
    var q', r' := a / d, a % d;
    MulSub(d, q', q);
    if q' > q {
      MulAtLeast(d, q' - q);
    } else if q' < q {
      MulAtLeast(d, q - q');
      MulSub(d, q, q');
    }
  }

  lemma MulSub(d: int, x: int, y: int)
    ensures d * x - d * y == d * (x - y)
  {
  }

  lemma MulAtLeast(d: int, x: int)
    requires d > 0 && x >= 1
    ensures d * x >= d
  {
  }

  /** Rounding down to a multiple of `d`. */
  lemma RoundDown(a: nat, d: nat)
    requires d > 0
    ensures 0 <= a - a % d <= a < a - a % d + d
    ensures (a - a % d) % d == 0
  {
    var q := a / d;
    assert a - a % d == d * q;
    DivModUnique(d * q, d, q, 0);
  }

  /** `a` with its last `32 - p` bits cleared (Go's `IP.Mask` with
      `CIDRMask(p, 32)`): the first address of the block of `HostCount(p)`
      addresses that holds `a`. */
  function Mask(a: Addr, p: PrefixLen): (m: Addr)
    ensures m <= a < m + HostCount(p)
    ensures m % HostCount(p) == 0
  {
    RoundDown(a, HostCount(p));
    a - a % HostCount(p)
  }

  /** Masking is determined by the block: every address of the block that
      starts at the multiple `m` masks to `m`. */
  lemma MaskOfBlock(a: Addr, p: PrefixLen, m: Addr)
    requires m % HostCount(p) == 0 && m <= a < m + HostCount(p)
    ensures Mask(a, p) == m
  {
    var d := HostCount(p);
    DivModUnique(m, d, m / d, 0);
    DivModUnique(a, d, m / d, a - m);
  }

  /** A network whose base address has no bits set beyond its prefix, as
      `ParseCIDR` builds it. */
  predicate Canonical(n: IPNet) {
    Mask(n.base, n.prefix) == n.base
  }

  /** Go's `IPNet.Contains`: `ip` and the base agree on the prefix bits. */
  predicate Contains(n: IPNet, ip: Addr) {
    Mask(ip, n.prefix) == Mask(n.base, n.prefix)
  }

  /** A canonical network contains exactly the `HostCount` consecutive
      addresses starting at its base. */
  lemma {:induction false} ContainsRange(n: IPNet, ip: Addr)
    requires Canonical(n)
    ensures Contains(n, ip) <==> n.base <= ip < n.base + HostCount(n.prefix)
  {
    if n.base <= ip < n.base + HostCount(n.prefix) {
      MaskOfBlock(ip, n.prefix, n.base);
    }
  }

  /** One field of a dotted quad: a canonical numeral of at most 255 (Go
      rejects leading zeros and values above 255). */
  predicate IsOctet(f: string) {
    Decimal.IsCanonical(f) && Decimal.Value(f) <= 255
  }

  function FromOctets(o0: Octet, o1: Octet, o2: Octet, o3: Octet): Addr {
    ((o0 * 0x100 + o1) * 0x100 + o2) * 0x100 + o3
  }

  /** Go's `net.ParseIP` restricted to IPv4: exactly four dot-separated
      octets; `None` for anything else, the empty string included. */
  function ParseIP(s: string): Option<Addr> {
    var f := Split(s, '.');
    if |f| == 4 && IsOctet(f[0]) && IsOctet(f[1]) && IsOctet(f[2]) && IsOctet(f[3])
    then Some(FromOctets(Decimal.Value(f[0]), Decimal.Value(f[1]), Decimal.Value(f[2]), Decimal.Value(f[3])))
    else None
  }

  /** The four octets of `a`, most significant first. */
  function Octets(a: Addr): (o: seq<Octet>)
    ensures |o| == 4 && FromOctets(o[0], o[1], o[2], o[3]) == a
  {
    var b := a / 0x100;
    var c := b / 0x100;
    [c / 0x100, c % 0x100, b % 0x100, a % 0x100]
  }

  lemma OctetsOfFromOctets(o0: Octet, o1: Octet, o2: Octet, o3: Octet)
    ensures Octets(FromOctets(o0, o1, o2, o3)) == [o0, o1, o2, o3]
  {
    var c := o0 * 0x100 + o1;
    var b := c * 0x100 + o2;
    var a := b * 0x100 + o3;
    DivModUnique(a, 0x100, b, o3);
    DivModUnique(b, 0x100, c, o2);
    DivModUnique(c, 0x100, o0, o1);
  }

  /** The dotted-quad text of `a` (Go's `IP.String` for an IPv4 address). */
  function FormatIP(a: Addr): string {
    var o := Octets(a);
    Join([Decimal.Format(o[0]), Decimal.Format(o[1]), Decimal.Format(o[2]), Decimal.Format(o[3])], '.')
  }

  /** Text made only of digits and dots. */
  predicate IsDotted(s: string) {
    forall k :: 0 <= k < |s| ==> Decimal.IsDigit(s[k]) || s[k] == '.'
  }

  lemma FormatIPShape(a: Addr)
    ensures IsDotted(FormatIP(a)) && |FormatIP(a)| >= 7
  {
    var o := Octets(a);
    var f0, f1, f2, f3 := Decimal.Format(o[0]), Decimal.Format(o[1]), Decimal.Format(o[2]), Decimal.Format(o[3]);
    JoinFour(f0, f1, f2, f3, '.');
  }

  /** Parsing the text of an address gives the address back. */
  lemma ParseFormatIP(a: Addr)
    ensures ParseIP(FormatIP(a)) == Some(a)
  {
    var o := Octets(a);
    var f := [Decimal.Format(o[0]), Decimal.Format(o[1]), Decimal.Format(o[2]), Decimal.Format(o[3])];
    forall i | 0 <= i < 4
      ensures Free(f[i], '.') && IsOctet(f[i]) && Decimal.Value(f[i]) == o[i]
    {
      Decimal.ValueOfFormat(o[i]);
    }
    SplitJoin(f, '.');
  }

  /** The only text `ParseIP` accepts for an address is that address's own
      text: no leading zeros, no padding, no other spelling. */
  lemma FormatParseIP(s: string)
    requires ParseIP(s).Some?
    ensures FormatIP(ParseIP(s).value) == s
  {
    var f := Split(s, '.');
    var v := [Decimal.Value(f[0]), Decimal.Value(f[1]), Decimal.Value(f[2]), Decimal.Value(f[3])];
    OctetsOfFromOctets(v[0], v[1], v[2], v[3]);
    forall i | 0 <= i < 4
      ensures Decimal.Format(v[i]) == f[i]
    {
      Decimal.FormatOfValue(f[i]);
    }
    JoinSplit(s, '.');
    assert f == [f[0], f[1], f[2], f[3]];
  }

  /** Every address `ParseIP` accepts is written with digits and dots only,
      so it is non-empty, has no white space and no comma. */
  lemma ParsedIPShape(s: string)
    requires ParseIP(s).Some?
    ensures IsDotted(s) && |s| >= 7
  {
    FormatParseIP(s);
    FormatIPShape(ParseIP(s).value);
  }

  /** The empty text is not an address. */
  lemma ParsedIPNonEmpty(s: string)
    requires ParseIP(s).Some?
    ensures s != []
  {
  }

  /** Go's `net.ParseCIDR` restricted to IPv4, returning the network: the
      text before the `/` must parse as an address and the text after it
      must be decimal digits (leading zeros allowed) denoting at most 32.
      The network's base is the address masked to the prefix. */
  function ParseCIDR(s: string): (r: Result<IPNet, ParseError>)
    ensures r.Success? ==> Canonical(r.value)
    ensures r.Failure? ==> r.error == ParseError("CIDR address", s)
  {
    var parts := Split(s, '/');
    if |parts| == 2 && ParseIP(parts[0]).Some?
       && |parts[1]| >= 1 && Decimal.IsDigits(parts[1]) && Decimal.Value(parts[1]) <= 32
    then
      var p := Decimal.Value(parts[1]);
      var m := Mask(ParseIP(parts[0]).value, p);
      MaskOfBlock(m, p, m);
      Success(IPNet(m, p))
    else
      Failure(ParseError("CIDR address", s))
  }

  /** An address text followed by `/` and digits splits at the `/`. */
  lemma SplitAtSlash(f: string, digits: string)
    requires IsDotted(f) && Decimal.IsDigits(digits)
    ensures Split(f + "/" + digits, '/') == [f, digits]
  {
    assert Free(f, '/') by {
      forall k | 0 <= k < |f|
        ensures f[k] != '/'
      {
        assert Decimal.IsDigit(f[k]) || f[k] == '.';
      }
    }
    assert Free(digits, '/') by {
      forall k | 0 <= k < |digits|
        ensures digits[k] != '/'
      {
        assert Decimal.IsDigit(digits[k]);
      }
    }
    JoinTwo(f, digits, '/');
    SplitJoin([f, digits], '/');
  }

  /** `ParseCIDR` looks only at the two sides of the `/`. */
  lemma ParseCIDROfParts(s: string, f: string, a: Addr, digits: string)
    requires |digits| >= 1 && Decimal.IsDigits(digits) && Decimal.Value(digits) <= 32
    requires Split(s, '/') == [f, digits] && ParseIP(f) == Some(a)
    ensures ParseCIDR(s) == Success(IPNet(Mask(a, Decimal.Value(digits)), Decimal.Value(digits)))
  {
  }

  /** `ParseCIDR` accepts every address followed by `/` and a prefix length
      of at most 32, and masks the address to the prefix. */
  lemma ParseCIDROfFormat(a: Addr, digits: string)
    requires |digits| >= 1 && Decimal.IsDigits(digits) && Decimal.Value(digits) <= 32
    ensures ParseCIDR(FormatIP(a) + "/" + digits)
            == Success(IPNet(Mask(a, Decimal.Value(digits)), Decimal.Value(digits)))
  {
    FormatIPShape(a);
    SplitAtSlash(FormatIP(a), digits);
    ParseFormatIP(a);
    ParseCIDROfParts(FormatIP(a) + "/" + digits, FormatIP(a), a, digits);
  }

  /** Conversely, `ParseCIDR` accepts nothing else, and the network it
      returns contains the address it was written with. */
  lemma ParseCIDRShape(s: string)
    requires ParseCIDR(s).Success?
    ensures exists a: Addr, digits: string ::
              && s == FormatIP(a) + "/" + digits
              && |digits| >= 1 && Decimal.IsDigits(digits) && Decimal.Value(digits) <= 32
              && ParseCIDR(s).value == IPNet(Mask(a, Decimal.Value(digits)), Decimal.Value(digits))
              && Contains(ParseCIDR(s).value, a)
  {
    var parts := Split(s, '/');
    var a := ParseIP(parts[0]).value;
    FormatParseIP(parts[0]);
    JoinSplit(s, '/');
    assert s == FormatIP(a) + "/" + parts[1];
    var p: PrefixLen := Decimal.Value(parts[1]);
    MaskOfBlock(Mask(a, p), p, Mask(a, p));
  }
}
